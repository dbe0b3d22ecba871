/**
 * The instance and class operations a markable class gains from
 * `markable_as`: `mark_as`, `marked_as?`, `unmark`, the class-level
 * `marked_as` query and the `have_marked_as_by` query.
 */
module ActsAsMarkable {
  import opened Wrappers
  import opened Seqs
  import opened Names
  import opened Rows
  import opened Registry
  import opened Authorization

  /** Every row's marker class is a registered marker and its markable class a registered markable. */
  ghost predicate TypesRegistered(reg: Registry, store: Store)
  {
    forall row :: row in store ==> row.marker.typ in reg.markers && row.markable.typ in reg.markables
  }

  /**
   * `markable.mark_as(mark, markers)`: for each marker in turn, authorize it
   * and then insert its row unless the identical row exists. A refused
   * marker raises; the rows of the markers before it stay, and the markers
   * after it are not looked at.
   */
  function MarkAs(reg: Registry, store: Store, markable: Ref, mark: Mark, markers: seq<Ref>): (r: Step)
    decreases |markers|
    ensures store <= r.store
    ensures forall i :: |store| <= i < |r.store| ==>
              && r.store[i].markable == markable && r.store[i].mark == mark && r.store[i].marker in markers
              && Admissible(reg, r.store[i].marker, markable, mark)
    ensures NoDup(store) ==> NoDup(r.store)
    ensures r.Done? <==> forall i :: 0 <= i < |markers| ==> Admissible(reg, markers[i], markable, mark)
  {
    if |markers| == 0 then Done(store)
    else match CanMarkOrRaise(reg, [markers[0]], [markable], mark)
      case Failure(e) => Raised(store, e)
      case Success(_) =>
        var r := MarkAs(reg, PushUnlessIncluded(store, Row(markers[0], markable, mark)), markable, mark, markers[1..]);
        assert forall i :: 1 <= i < |markers| ==> markers[i] == markers[1..][i - 1];
        r
  }

  /**
   * After a successful `mark_as` every marker's row is present, and rows only
   * ever join the store for registered classes.
   */
  lemma {:induction false} MarkAsMarks(reg: Registry, store: Store, markable: Ref, mark: Mark, markers: seq<Ref>)
    ensures MarkAs(reg, store, markable, mark, markers).Done? ==>
              forall i :: 0 <= i < |markers| ==> Row(markers[i], markable, mark) in MarkAs(reg, store, markable, mark, markers).store
    ensures TypesRegistered(reg, store) ==> TypesRegistered(reg, MarkAs(reg, store, markable, mark, markers).store)
    decreases |markers|
  {
    var r := MarkAs(reg, store, markable, mark, markers);
    forall row | row in r.store ensures row in store || (row.markable == markable && Admissible(reg, row.marker, markable, mark)) {
      var k :| 0 <= k < |r.store| && r.store[k] == row;
      if k < |store| { assert store[k] == row; }
    }
    if |markers| > 0 && r.Done? {
      CanMarkOrRaiseSingle(reg, markers[0], markable, mark);
      var pushed := PushUnlessIncluded(store, Row(markers[0], markable, mark));
      MarkAsMarks(reg, pushed, markable, mark, markers[1..]);
      assert r == MarkAs(reg, pushed, markable, mark, markers[1..]);
      var k :| 0 <= k < |pushed| && pushed[k] == Row(markers[0], markable, mark);
      assert r.store[k] == Row(markers[0], markable, mark);
      forall i | 1 <= i < |markers| ensures Row(markers[i], markable, mark) in r.store {
        assert markers[i] == markers[1..][i - 1];
      }
    }
  }

  /**
   * `mark_as` raises on the first refused marker, with that marker's error,
   * and leaves the store as marking with the markers before it does.
   */
  lemma {:induction false} MarkAsStopsAtFirstRefusal(reg: Registry, store: Store, markable: Ref, mark: Mark,
                                                     markers: seq<Ref>, k: nat)
    requires k < |markers|
    requires forall i :: 0 <= i < k ==> Admissible(reg, markers[i], markable, mark)
    requires !Admissible(reg, markers[k], markable, mark)
    ensures MarkAs(reg, store, markable, mark, markers) ==
            Raised(MarkAs(reg, store, markable, mark, markers[..k]).store, CanMarkObject(reg, markers[k], markable, mark).error)
    decreases k
  {
    CanMarkOrRaiseSingle(reg, markers[0], markable, mark);
    if k == 0 {
      assert markers[..0] == [];
    } else {
      var pushed := PushUnlessIncluded(store, Row(markers[0], markable, mark));
      var pre := markers[..k];
      assert pre[0] == markers[0];
      assert pre[1..] == markers[1..][..k - 1];
      assert MarkAs(reg, store, markable, mark, pre) == MarkAs(reg, pushed, markable, mark, pre[1..]);
      assert MarkAs(reg, store, markable, mark, markers) == MarkAs(reg, pushed, markable, mark, markers[1..]);
      assert forall i :: 0 <= i < k - 1 ==> markers[1..][i] == markers[i + 1];
      MarkAsStopsAtFirstRefusal(reg, pushed, markable, mark, markers[1..], k - 1);
    }
  }

  /** Marking with rows that are all present already changes nothing. */
  lemma {:induction false} MarkAsPresent(reg: Registry, store: Store, markable: Ref, mark: Mark, markers: seq<Ref>)
    requires forall i :: 0 <= i < |markers| ==> Admissible(reg, markers[i], markable, mark)
    requires forall i :: 0 <= i < |markers| ==> Row(markers[i], markable, mark) in store
    ensures MarkAs(reg, store, markable, mark, markers) == Done(store)
    decreases |markers|
  {
    if |markers| > 0 {
      CanMarkOrRaiseSingle(reg, markers[0], markable, mark);
      assert forall i :: 0 <= i < |markers[1..]| ==> markers[1..][i] == markers[i + 1];
      MarkAsPresent(reg, store, markable, mark, markers[1..]);
    }
  }

  /** `mark_as` is idempotent: repeating a successful call leaves the store as it is. */
  lemma MarkAsIdempotent(reg: Registry, store: Store, markable: Ref, mark: Mark, markers: seq<Ref>)
    requires MarkAs(reg, store, markable, mark, markers).Done?
    ensures MarkAs(reg, MarkAs(reg, store, markable, mark, markers).store, markable, mark, markers) ==
            MarkAs(reg, store, markable, mark, markers)
  {
    MarkAsMarks(reg, store, markable, mark, markers);
    MarkAsPresent(reg, MarkAs(reg, store, markable, mark, markers).store, markable, mark, markers);
  }

  /** On a duplicate-free store, a successful `mark_as` leaves exactly one row per marker. */
  lemma MarkAsExactlyOneRow(reg: Registry, store: Store, markable: Ref, mark: Mark, markers: seq<Ref>, i: nat)
    requires NoDup(store) && i < |markers|
    requires MarkAs(reg, store, markable, mark, markers).Done?
    ensures multiset(MarkAs(reg, store, markable, mark, markers).store)[Row(markers[i], markable, mark)] == 1
  {
    MarkAsMarks(reg, store, markable, mark, markers);
    NoDupCountOne(MarkAs(reg, store, markable, mark, markers).store, Row(markers[i], markable, mark));
  }

  /**
   * `markable.marked_as?(mark, by: marker)`. Without a marker it asks whether
   * any row for this markable and mark exists, with no authorization. With a
   * marker it authorizes that marker first, then asks for the exact row.
   */
  function IsMarkedAs(reg: Registry, store: Store, markable: Ref, mark: Mark, byMarker: Option<Ref>): (r: Result<bool, MarkError>)
    ensures byMarker.None? ==> r.Success?
    ensures byMarker.None? ==> (r.value <==> exists row :: row in store && row.markable == markable && row.mark == mark)
    ensures byMarker.Some? ==> (r.Success? <==> Admissible(reg, byMarker.value, markable, mark))
    ensures byMarker.Some? && r.Failure? ==> r == CanMarkObject(reg, byMarker.value, markable, mark)
    ensures byMarker.Some? && r.Success? ==> (r.value <==> Row(byMarker.value, markable, mark) in store)
  {
    match byMarker
    case None => Success(Exists(store, Where(None, Some(markable), Some(mark))))
    case Some(marker) =>
      CanMarkOrRaiseSingle(reg, marker, markable, mark);
      match CanMarkOrRaise(reg, [marker], [markable], mark)
      case Failure(e) => Failure(e)
      case Success(_) =>
        assert Row(marker, markable, mark) in store ==> Exists(store, Where(byMarker, Some(markable), Some(mark)));
        Success(Exists(store, Where(byMarker, Some(markable), Some(mark))))
  }

  /** After a successful `mark_as`, the markable is marked, by each of the markers. */
  lemma MarkThenMarked(reg: Registry, store: Store, markable: Ref, mark: Mark, markers: seq<Ref>)
    requires MarkAs(reg, store, markable, mark, markers).Done?
    ensures forall i :: 0 <= i < |markers| ==>
              IsMarkedAs(reg, MarkAs(reg, store, markable, mark, markers).store, markable, mark, Some(markers[i])) == Success(true)
    ensures |markers| > 0 ==>
              IsMarkedAs(reg, MarkAs(reg, store, markable, mark, markers).store, markable, mark, None) == Success(true)
  {
    var s := MarkAs(reg, store, markable, mark, markers).store;
    MarkAsMarks(reg, store, markable, mark, markers);
    if |markers| > 0 {
      assert Row(markers[0], markable, mark) in s;
    }
  }

  /** A row of this markable and mark put there by one of the given markers. */
  predicate Targeted(row: Row, markable: Ref, mark: Mark, markers: seq<Ref>)
  {
    row.markable == markable && row.mark == mark && row.marker in markers
  }

  /** The rows `unmark` removes: the targeted rows, or every row of this markable and mark when no marker is given. */
  predicate Unmarked(row: Row, markable: Ref, mark: Mark, markers: seq<Ref>)
  {
    row.markable == markable && row.mark == mark && (|markers| == 0 || row.marker in markers)
  }

  /** The per-marker `delete_all` loop of `unmark(mark, by: markers)`. */
  function DeleteEach(store: Store, markable: Ref, mark: Mark, markers: seq<Ref>): (r: Store)
    decreases |markers|
    ensures forall row :: multiset(r)[row] ==
              if Targeted(row, markable, mark, markers) then 0 else multiset(store)[row]
    ensures NoDup(store) ==> NoDup(r)
  {
    if |markers| == 0 then store
    else
      var r := DeleteEach(DeleteAll(store, Where(Some(markers[0]), Some(markable), Some(mark))), markable, mark, markers[1..]);
      assert forall m :: m in markers <==> m == markers[0] || m in markers[1..];
      r
  }

  lemma {:induction false} DeleteEachAppend(s: Store, t: Store, markable: Ref, mark: Mark, markers: seq<Ref>)
    ensures DeleteEach(s + t, markable, mark, markers) == DeleteEach(s, markable, mark, markers) + DeleteEach(t, markable, mark, markers)
    decreases |markers|
  {
    if |markers| > 0 {
      var w := Where(Some(markers[0]), Some(markable), Some(mark));
      DeleteAllAppend(s, t, w);
      DeleteEachAppend(DeleteAll(s, w), DeleteAll(t, w), markable, mark, markers[1..]);
    }
  }

  lemma {:induction false} DeleteEachUntouched(store: Store, markable: Ref, mark: Mark, markers: seq<Ref>)
    requires forall i :: 0 <= i < |store| ==> !Targeted(store[i], markable, mark, markers)
    ensures DeleteEach(store, markable, mark, markers) == store
    decreases |markers|
  {
    if |markers| > 0 {
      var w := Where(Some(markers[0]), Some(markable), Some(mark));
      assert DeleteAll(store, w) == store;
      assert forall m :: m in markers[1..] ==> m in markers;
      DeleteEachUntouched(store, markable, mark, markers[1..]);
    }
  }

  /** A sequence whose every element has multiplicity zero is empty. */
  lemma EmptyByCount(s: Store)
    requires forall row :: multiset(s)[row] == 0
    ensures s == []
  {
    assert multiset(s) == multiset{};
    assert |s| == |multiset(s)| == 0;
  }

  /**
   * `markable.unmark(mark, by: markers)`. Without markers, every row for this
   * markable and mark goes, whatever its marker, with no authorization. With
   * markers, all of them are authorized before anything is deleted, then
   * only their rows go. Other rows keep their multiplicity; an absent row is no error.
   */
  function Unmark(reg: Registry, store: Store, markable: Ref, mark: Mark, markers: seq<Ref>): (r: Step)
    ensures r.Raised? ==> r.store == store
    ensures r.Raised? ==> |markers| > 0 && CanMarkOrRaise(reg, markers, [markable], mark) == Failure(r.error)
    ensures r.Done? <==> |markers| == 0 || forall i :: 0 <= i < |markers| ==> Admissible(reg, markers[i], markable, mark)
    ensures r.Done? ==>
              forall row :: multiset(r.store)[row] == if Unmarked(row, markable, mark, markers) then 0 else multiset(store)[row]
    ensures (forall i :: 0 <= i < |store| ==> !Unmarked(store[i], markable, mark, markers)) ==> r.store == store
    ensures NoDup(store) ==> NoDup(r.store)
  {
    if |markers| == 0 then Done(DeleteAll(store, Where(None, Some(markable), Some(mark))))
    else match CanMarkOrRaise(reg, markers, [markable], mark)
      case Failure(e) => Raised(store, e)
      case Success(_) =>
        DeleteEachUntouchedIf(store, markable, mark, markers);
        Done(DeleteEach(store, markable, mark, markers))
  }

  lemma DeleteEachUntouchedIf(store: Store, markable: Ref, mark: Mark, markers: seq<Ref>)
    requires |markers| > 0
    ensures (forall i :: 0 <= i < |store| ==> !Unmarked(store[i], markable, mark, markers)) ==>
              DeleteEach(store, markable, mark, markers) == store
  {
    if forall i :: 0 <= i < |store| ==> !Unmarked(store[i], markable, mark, markers) {
      DeleteEachUntouched(store, markable, mark, markers);
    }
  }

  /**
   * `unmark` by the same markers undoes a successful `mark_as` on a store
   * that held none of those rows: the store is exactly as before.
   */
  lemma UnmarkUndoesMarkAs(reg: Registry, store: Store, markable: Ref, mark: Mark, markers: seq<Ref>)
    requires forall i :: 0 <= i < |store| ==> !Unmarked(store[i], markable, mark, markers)
    requires MarkAs(reg, store, markable, mark, markers).Done?
    ensures Unmark(reg, MarkAs(reg, store, markable, mark, markers).store, markable, mark, markers) == Done(store)
  {
    if |markers| == 0 {
      assert MarkAs(reg, store, markable, mark, markers) == Done(store);
    } else {
      UnmarkByMarkersUndoesMarkAs(reg, store, markable, mark, markers);
    }
  }

  lemma UnmarkByMarkersUndoesMarkAs(reg: Registry, store: Store, markable: Ref, mark: Mark, markers: seq<Ref>)
    requires |markers| > 0
    requires forall i :: 0 <= i < |store| ==> !Unmarked(store[i], markable, mark, markers)
    requires MarkAs(reg, store, markable, mark, markers).Done?
    ensures Unmark(reg, MarkAs(reg, store, markable, mark, markers).store, markable, mark, markers) == Done(store)
  {
    var s := MarkAs(reg, store, markable, mark, markers).store;
    var added := s[|store|..];
    assert s == store + added;
    forall i | 0 <= i < |added|
      ensures Targeted(added[i], markable, mark, markers)
    {
      assert added[i] == s[|store| + i];
    }
    forall i | 0 <= i < |store| ensures !Targeted(store[i], markable, mark, markers) {
      assert !Unmarked(store[i], markable, mark, markers);
    }
    DeleteEachUndoesAppend(store, added, markable, mark, markers);
    UnmarkByMarkers(reg, s, markable, mark, markers);
  }

  /** Deleting the rows of the markers from a store extended with only such rows gives back the store. */
  lemma DeleteEachUndoesAppend(store: Store, added: Store, markable: Ref, mark: Mark, markers: seq<Ref>)
    requires forall i :: 0 <= i < |store| ==> !Targeted(store[i], markable, mark, markers)
    requires forall i :: 0 <= i < |added| ==> Targeted(added[i], markable, mark, markers)
    ensures DeleteEach(store + added, markable, mark, markers) == store
  {
    DeleteEachAppend(store, added, markable, mark, markers);
    DeleteEachUntouched(store, markable, mark, markers);
    DeleteEachAllTargeted(added, markable, mark, markers);
    assert store + [] == store;
  }

  /** `unmark` by authorized markers is the per-marker deletion loop. */
  lemma UnmarkByMarkers(reg: Registry, store: Store, markable: Ref, mark: Mark, markers: seq<Ref>)
    requires |markers| > 0
    requires forall i :: 0 <= i < |markers| ==> Admissible(reg, markers[i], markable, mark)
    ensures Unmark(reg, store, markable, mark, markers) == Done(DeleteEach(store, markable, mark, markers))
  {
    assert CanMarkOrRaise(reg, markers, [markable], mark).Success?;
  }

  /** Deleting every row of a sequence made only of targeted rows leaves nothing. */
  lemma DeleteEachAllTargeted(t: Store, markable: Ref, mark: Mark, markers: seq<Ref>)
    requires forall i :: 0 <= i < |t| ==> Targeted(t[i], markable, mark, markers)
    ensures DeleteEach(t, markable, mark, markers) == []
  {
    var gone := DeleteEach(t, markable, mark, markers);
    forall row ensures multiset(gone)[row] == 0 {
      if row !in t {
        assert multiset(t)[row] == 0;
      }
    }
    EmptyByCount(gone);
  }

  /** After a successful `unmark`, the markable is no longer marked by the markers it named, or at all when it named none. */
  lemma UnmarkThenUnmarked(reg: Registry, store: Store, markable: Ref, mark: Mark, markers: seq<Ref>)
    requires Unmark(reg, store, markable, mark, markers).Done?
    ensures forall i :: 0 <= i < |markers| ==>
              IsMarkedAs(reg, Unmark(reg, store, markable, mark, markers).store, markable, mark, Some(markers[i])) == Success(false)
    ensures |markers| == 0 ==>
              IsMarkedAs(reg, Unmark(reg, store, markable, mark, markers).store, markable, mark, None) == Success(false)
  {
    var s := Unmark(reg, store, markable, mark, markers).store;
    forall i | 0 <= i < |markers| ensures Row(markers[i], markable, mark) !in s {
      assert multiset(s)[Row(markers[i], markable, mark)] == 0;
    }
    if |markers| == 0 {
      forall row | row in s ensures !(row.markable == markable && row.mark == mark) {
        assert multiset(s)[row] > 0;
      }
    }
  }

  /** One row of the join behind the class-level `marked_as`, kept when its markable record exists. */
  predicate JoinsMarkable(row: Row, live: set<Ref>, cls: TypeName, mark: Mark, byMarker: Option<Ref>)
  {
    row.markable.typ == cls && row.markable in live && row.mark == mark && (byMarker.None? || row.marker == byMarker.value)
  }

  /** The ids the join of class `cls` with its marks yields, one per matching row. */
  function MarkableJoin(store: Store, live: set<Ref>, cls: TypeName, mark: Mark, byMarker: Option<Ref>): (r: seq<Id>)
    ensures forall id :: id in r <==> exists row :: row in store && JoinsMarkable(row, live, cls, mark, byMarker) && row.markable.id == id
    ensures byMarker.Some? && NoDup(store) ==> NoDup(r)
  {
    if |store| == 0 then []
    else
      var rest := MarkableJoin(store[1..], live, cls, mark, byMarker);
      assert store == [store[0]] + store[1..];
      if JoinsMarkable(store[0], live, cls, mark, byMarker) then
        assert byMarker.Some? && NoDup(store) ==> store[0].markable.id !in rest by {
          if byMarker.Some? && NoDup(store) {
            NoDupHead(store);
            forall row | row in store[1..] && JoinsMarkable(row, live, cls, mark, byMarker)
              ensures row.markable.id != store[0].markable.id
            {
              assert row != store[0];
            }
          }
        }
        [store[0].markable.id] + rest
      else rest
  }

  /**
   * The class-level `Cls.marked_as(mark, by: marker)`: the existing records
   * of class `cls` holding a row (marker, mark). Without `by`, every record
   * holding a row with this mark, each once. No authorization either way.
   */
  function MarkedAs(store: Store, live: set<Ref>, cls: TypeName, mark: Mark, byMarker: Option<Ref>): (r: seq<Id>)
    ensures byMarker.Some? ==> forall id :: id in r <==> Ref(cls, id) in live && Row(byMarker.value, Ref(cls, id), mark) in store
    ensures byMarker.None? ==> forall id :: id in r <==>
              Ref(cls, id) in live && exists row :: row in store && row.markable == Ref(cls, id) && row.mark == mark
    ensures byMarker.None? || NoDup(store) ==> NoDup(r)
  {
    var joined := MarkableJoin(store, live, cls, mark, byMarker);
    if byMarker.Some? then
      assert forall id :: Row(byMarker.value, Ref(cls, id), mark) in store && Ref(cls, id) in live ==> id in joined by {
        forall id | Row(byMarker.value, Ref(cls, id), mark) in store && Ref(cls, id) in live ensures id in joined {
          assert JoinsMarkable(Row(byMarker.value, Ref(cls, id), mark), live, cls, mark, byMarker);
        }
      }
      joined
    else Dedup(joined)
  }

  /** One row of the join behind `have_marked_as_by`, kept when its marker record exists. */
  predicate JoinsMarker(row: Row, live: set<Ref>, markable: Ref, mark: Mark, target: TypeName)
  {
    row.marker.typ == target && row.marker in live && row.markable == markable && row.mark == mark
  }

  /**
   * `markable.have_marked_as_by(mark, Target)`: the existing records of
   * class `target` holding a row (record, markable, mark), one per row, with
   * no authorization.
   */
  function HaveMarkedAsBy(store: Store, live: set<Ref>, markable: Ref, mark: Mark, target: TypeName): (r: seq<Id>)
    ensures forall id :: id in r <==> Ref(target, id) in live && Row(Ref(target, id), markable, mark) in store
    ensures NoDup(store) ==> NoDup(r)
  {
    if |store| == 0 then []
    else
      var rest := HaveMarkedAsBy(store[1..], live, markable, mark, target);
      assert store == [store[0]] + store[1..];
      if JoinsMarker(store[0], live, markable, mark, target) then [store[0].marker.id] + rest
      else rest
  }

  /**
   * The two queries agree with `mark_as`: after marking, each existing
   * marker lists the markable and the markable lists each existing marker.
   */
  lemma QueriesSeeMarkAs(reg: Registry, store: Store, live: set<Ref>, markable: Ref, mark: Mark, markers: seq<Ref>, i: nat)
    requires i < |markers| && MarkAs(reg, store, markable, mark, markers).Done?
    ensures markable in live ==>
              markable.id in MarkedAs(MarkAs(reg, store, markable, mark, markers).store, live, markable.typ, mark, Some(markers[i]))
    ensures markers[i] in live ==>
              markers[i].id in HaveMarkedAsBy(MarkAs(reg, store, markable, mark, markers).store, live, markable, mark, markers[i].typ)
  {
    MarkAsMarks(reg, store, markable, mark, markers);
  }
}
