/** The instance operations a marker class gains from `acts_as_marker`: `set_mark` and `remove_mark`. */
module ActsAsMarker {
  import opened Wrappers
  import opened Seqs
  import opened Names
  import opened Rows
  import opened Registry
  import opened Authorization
  import opened ActsAsMarkable

  /**
   * `marker.set_mark(mark, markables)`: for each markable in turn, authorize
   * the pair, then `markable.mark_as(mark, marker)`. A refused markable
   * raises; the markables before it stay marked and those after it are not
   * touched. The inner `mark_as` authorizes the same pair again and so
   * cannot raise; its store is taken as it comes.
   */
  function SetMark(reg: Registry, store: Store, marker: Ref, mark: Mark, markables: seq<Ref>): (r: Step)
    decreases |markables|
    ensures store <= r.store
    ensures forall i :: |store| <= i < |r.store| ==>
              r.store[i].marker == marker && r.store[i].mark == mark && r.store[i].markable in markables
    ensures forall i :: |store| <= i < |r.store| ==> Admissible(reg, marker, r.store[i].markable, mark)
    ensures NoDup(store) ==> NoDup(r.store)
    ensures r.Done? <==> forall j :: 0 <= j < |markables| ==> Admissible(reg, marker, markables[j], mark)
  {
    if |markables| == 0 then Done(store)
    else match CanMarkOrRaise(reg, [marker], [markables[0]], mark)
      case Failure(e) => Raised(store, e)
      case Success(_) =>
        MarkAsOne(reg, store, marker, markables[0], mark);
        var r := SetMark(reg, MarkAs(reg, store, markables[0], mark, [marker]).store, marker, mark, markables[1..]);
        assert forall j :: 1 <= j < |markables| ==> markables[j] == markables[1..][j - 1];
        r
  }

  /**
   * After a successful `set_mark` every markable's row is present, and rows
   * only ever join the store for registered classes.
   */
  lemma {:induction false} SetMarkMarks(reg: Registry, store: Store, marker: Ref, mark: Mark, markables: seq<Ref>)
    ensures SetMark(reg, store, marker, mark, markables).Done? ==>
              forall j :: 0 <= j < |markables| ==> Row(marker, markables[j], mark) in SetMark(reg, store, marker, mark, markables).store
    ensures TypesRegistered(reg, store) ==> TypesRegistered(reg, SetMark(reg, store, marker, mark, markables).store)
    decreases |markables|
  {
    var r := SetMark(reg, store, marker, mark, markables);
    forall row | row in r.store ensures row in store || (row.marker == marker && Admissible(reg, marker, row.markable, mark)) {
      var k :| 0 <= k < |r.store| && r.store[k] == row;
      if k < |store| { assert store[k] == row; }
    }
    if |markables| > 0 && r.Done? {
      var marked := MarkAs(reg, store, markables[0], mark, [marker]).store;
      SetMarkUnfold(reg, store, marker, mark, markables);
      MarkAsMarks(reg, store, markables[0], mark, [marker]);
      CanMarkOrRaiseSingle(reg, marker, markables[0], mark);
      SetMarkMarks(reg, marked, marker, mark, markables[1..]);
      var k :| 0 <= k < |marked| && marked[k] == Row(marker, markables[0], mark);
      assert r.store[k] == Row(marker, markables[0], mark);
      forall j | 1 <= j < |markables| ensures Row(marker, markables[j], mark) in r.store {
        assert markables[j] == markables[1..][j - 1];
      }
    }
  }

  /** `mark_as` with one admitted marker is the insert-unless-present of its row. */
  lemma MarkAsOne(reg: Registry, store: Store, marker: Ref, markable: Ref, mark: Mark)
    requires CanMarkOrRaise(reg, [marker], [markable], mark).Success?
    ensures MarkAs(reg, store, markable, mark, [marker]) == Done(PushUnlessIncluded(store, Row(marker, markable, mark)))
  {
    CanMarkOrRaiseSingle(reg, marker, markable, mark);
    assert [marker][1..] == [];
  }

  /** Marking one markable from the marker's side is `mark_as` from the markable's side. */
  lemma SetMarkIsMarkAs(reg: Registry, store: Store, marker: Ref, markable: Ref, mark: Mark)
    ensures SetMark(reg, store, marker, mark, [markable]) == MarkAs(reg, store, markable, mark, [marker])
  {
    CanMarkOrRaiseSingle(reg, marker, markable, mark);
    if Admissible(reg, marker, markable, mark) {
      assert [markable][1..] == [];
    }
  }

  /**
   * `set_mark` raises on the first refused markable, with that pair's error,
   * and leaves the store as marking the markables before it does.
   */
  lemma {:induction false} SetMarkStopsAtFirstRefusal(reg: Registry, store: Store, marker: Ref, mark: Mark,
                                                      markables: seq<Ref>, k: nat)
    requires k < |markables|
    requires forall j :: 0 <= j < k ==> Admissible(reg, marker, markables[j], mark)
    requires !Admissible(reg, marker, markables[k], mark)
    ensures SetMark(reg, store, marker, mark, markables) ==
            Raised(SetMark(reg, store, marker, mark, markables[..k]).store, CanMarkObject(reg, marker, markables[k], mark).error)
    decreases k
  {
    if k == 0 {
      CanMarkOrRaiseSingle(reg, marker, markables[0], mark);
      assert markables[..0] == [];
    } else {
      var marked := MarkAs(reg, store, markables[0], mark, [marker]).store;
      assert forall j :: 0 <= j < k - 1 ==> markables[1..][j] == markables[j + 1];
      assert markables[1..][k - 1] == markables[k];
      SetMarkStopsAtFirstRefusal(reg, marked, marker, mark, markables[1..], k - 1);
      SetMarkUnfold(reg, store, marker, mark, markables);
      SetMarkPrefixUnfold(reg, store, marker, mark, markables, k);
    }
  }

  lemma SetMarkPrefixUnfold(reg: Registry, store: Store, marker: Ref, mark: Mark, markables: seq<Ref>, k: nat)
    requires 0 < k <= |markables| && Admissible(reg, marker, markables[0], mark)
    ensures SetMark(reg, store, marker, mark, markables[..k]) ==
            SetMark(reg, MarkAs(reg, store, markables[0], mark, [marker]).store, marker, mark, markables[1..][..k - 1])
  {
    var pre := markables[..k];
    assert pre[0] == markables[0];
    assert pre[1..] == markables[1..][..k - 1];
    SetMarkUnfold(reg, store, marker, mark, pre);
  }

  lemma SetMarkUnfold(reg: Registry, store: Store, marker: Ref, mark: Mark, markables: seq<Ref>)
    requires |markables| > 0 && Admissible(reg, marker, markables[0], mark)
    ensures SetMark(reg, store, marker, mark, markables) ==
            SetMark(reg, MarkAs(reg, store, markables[0], mark, [marker]).store, marker, mark, markables[1..])
  {
    CanMarkOrRaiseSingle(reg, marker, markables[0], mark);
  }

  lemma {:induction false} SetMarkPresent(reg: Registry, store: Store, marker: Ref, mark: Mark, markables: seq<Ref>)
    requires forall j :: 0 <= j < |markables| ==> Admissible(reg, marker, markables[j], mark)
    requires forall j :: 0 <= j < |markables| ==> Row(marker, markables[j], mark) in store
    ensures SetMark(reg, store, marker, mark, markables) == Done(store)
    decreases |markables|
  {
    if |markables| > 0 {
      CanMarkOrRaiseSingle(reg, marker, markables[0], mark);
      MarkAsPresent(reg, store, markables[0], mark, [marker]);
      assert forall j :: 0 <= j < |markables[1..]| ==> markables[1..][j] == markables[j + 1];
      SetMarkPresent(reg, store, marker, mark, markables[1..]);
    }
  }

  /** `set_mark` on marks already present leaves the store unchanged, so repeating it is harmless. */
  lemma SetMarkIdempotent(reg: Registry, store: Store, marker: Ref, mark: Mark, markables: seq<Ref>)
    requires SetMark(reg, store, marker, mark, markables).Done?
    ensures SetMark(reg, SetMark(reg, store, marker, mark, markables).store, marker, mark, markables) ==
            SetMark(reg, store, marker, mark, markables)
  {
    SetMarkMarks(reg, store, marker, mark, markables);
    SetMarkPresent(reg, SetMark(reg, store, marker, mark, markables).store, marker, mark, markables);
  }

  /** A row this marker put on one of the given markables with this mark. */
  predicate Removed(row: Row, marker: Ref, markables: seq<Ref>, mark: Mark)
  {
    row.marker == marker && row.markable in markables && row.mark == mark
  }

  /** The loop of `remove_mark` once every pair is authorized: `markable.unmark(mark, by: marker)` for each. */
  function UnmarkEach(reg: Registry, store: Store, marker: Ref, mark: Mark, markables: seq<Ref>): (r: Store)
    requires forall j :: 0 <= j < |markables| ==> Admissible(reg, marker, markables[j], mark)
    decreases |markables|
    ensures forall row :: multiset(r)[row] ==
              if Removed(row, marker, markables, mark) then 0 else multiset(store)[row]
    ensures NoDup(store) ==> NoDup(r)
  {
    if |markables| == 0 then store
    else
      var r := UnmarkEach(reg, Unmark(reg, store, markables[0], mark, [marker]).store, marker, mark, markables[1..]);
      assert forall b :: b in markables <==> b == markables[0] || b in markables[1..];
      r
  }

  lemma {:induction false} UnmarkEachIsDeleteEach(reg: Registry, store: Store, marker: Ref, mark: Mark, markables: seq<Ref>)
    requires forall j :: 0 <= j < |markables| ==> Admissible(reg, marker, markables[j], mark)
    requires |markables| > 0
    ensures Unmark(reg, store, markables[0], mark, [marker]).store == DeleteEach(store, markables[0], mark, [marker])
  {
    CanMarkOrRaiseSingle(reg, marker, markables[0], mark);
  }

  lemma {:induction false} UnmarkEachAppend(reg: Registry, s: Store, t: Store, marker: Ref, mark: Mark, markables: seq<Ref>)
    requires forall j :: 0 <= j < |markables| ==> Admissible(reg, marker, markables[j], mark)
    ensures UnmarkEach(reg, s + t, marker, mark, markables) ==
            UnmarkEach(reg, s, marker, mark, markables) + UnmarkEach(reg, t, marker, mark, markables)
    decreases |markables|
  {
    if |markables| > 0 {
      UnmarkEachIsDeleteEach(reg, s + t, marker, mark, markables);
      UnmarkEachIsDeleteEach(reg, s, marker, mark, markables);
      UnmarkEachIsDeleteEach(reg, t, marker, mark, markables);
      DeleteEachAppend(s, t, markables[0], mark, [marker]);
      assert forall j :: 0 <= j < |markables[1..]| ==> markables[1..][j] == markables[j + 1];
      UnmarkEachAppend(reg, DeleteEach(s, markables[0], mark, [marker]), DeleteEach(t, markables[0], mark, [marker]),
                       marker, mark, markables[1..]);
    }
  }

  lemma {:induction false} UnmarkEachUntouched(reg: Registry, store: Store, marker: Ref, mark: Mark, markables: seq<Ref>)
    requires forall j :: 0 <= j < |markables| ==> Admissible(reg, marker, markables[j], mark)
    requires forall i :: 0 <= i < |store| ==> !Removed(store[i], marker, markables, mark)
    ensures UnmarkEach(reg, store, marker, mark, markables) == store
    decreases |markables|
  {
    if |markables| > 0 {
      UnmarkEachIsDeleteEach(reg, store, marker, mark, markables);
      DeleteEachUntouched(store, markables[0], mark, [marker]);
      assert forall j :: 0 <= j < |markables[1..]| ==> markables[1..][j] == markables[j + 1];
      UnmarkEachUntouched(reg, store, marker, mark, markables[1..]);
    }
  }

  /**
   * `marker.remove_mark(mark, markables)`: every pair is authorized before
   * anything is deleted, so a refused pair removes nothing. Then exactly the
   * rows (marker, one of the markables, mark) go; an absent row is no error.
   */
  function RemoveMark(reg: Registry, store: Store, marker: Ref, mark: Mark, markables: seq<Ref>): (r: Step)
    ensures r.Raised? ==> r.store == store
    ensures r.Raised? ==> CanMarkOrRaise(reg, [marker], markables, mark) == Failure(r.error)
    ensures r.Done? <==> forall j :: 0 <= j < |markables| ==> Admissible(reg, marker, markables[j], mark)
    ensures r.Done? ==>
              forall row :: multiset(r.store)[row] ==
                if Removed(row, marker, markables, mark) then 0 else multiset(store)[row]
    ensures (forall i :: 0 <= i < |store| ==> !Removed(store[i], marker, markables, mark)) ==>
              r.store == store
    ensures NoDup(store) ==> NoDup(r.store)
  {
    match CanMarkOrRaise(reg, [marker], markables, mark)
    case Failure(e) => Raised(store, e)
    case Success(_) =>
      assert forall j :: 0 <= j < |markables| ==> Admissible(reg, [marker][0], markables[j], mark);
      RemoveUntouchedIf(reg, store, marker, mark, markables);
      Done(UnmarkEach(reg, store, marker, mark, markables))
  }

  lemma RemoveUntouchedIf(reg: Registry, store: Store, marker: Ref, mark: Mark, markables: seq<Ref>)
    requires forall j :: 0 <= j < |markables| ==> Admissible(reg, marker, markables[j], mark)
    ensures (forall i :: 0 <= i < |store| ==> !Removed(store[i], marker, markables, mark)) ==>
              UnmarkEach(reg, store, marker, mark, markables) == store
  {
    if forall i :: 0 <= i < |store| ==> !Removed(store[i], marker, markables, mark) {
      UnmarkEachUntouched(reg, store, marker, mark, markables);
    }
  }

  /**
   * `remove_mark` undoes a successful `set_mark` of the same markables on a
   * store that held none of those rows: the store is exactly as before.
   */
  lemma RemoveMarkUndoesSetMark(reg: Registry, store: Store, marker: Ref, mark: Mark, markables: seq<Ref>)
    requires forall i :: 0 <= i < |store| ==> !Removed(store[i], marker, markables, mark)
    requires SetMark(reg, store, marker, mark, markables).Done?
    ensures RemoveMark(reg, SetMark(reg, store, marker, mark, markables).store, marker, mark, markables) == Done(store)
  {
    var s := SetMark(reg, store, marker, mark, markables).store;
    var added := s[|store|..];
    assert s == store + added;
    forall i | 0 <= i < |added|
      ensures Removed(added[i], marker, markables, mark)
    {
      assert added[i] == s[|store| + i];
    }
    UnmarkEachUndoesAppend(reg, store, added, marker, mark, markables);
    assert CanMarkOrRaise(reg, [marker], markables, mark).Success?;
  }

  lemma UnmarkEachUndoesAppend(reg: Registry, store: Store, added: Store, marker: Ref, mark: Mark, markables: seq<Ref>)
    requires forall j :: 0 <= j < |markables| ==> Admissible(reg, marker, markables[j], mark)
    requires forall i :: 0 <= i < |store| ==> !Removed(store[i], marker, markables, mark)
    requires forall i :: 0 <= i < |added| ==> Removed(added[i], marker, markables, mark)
    ensures UnmarkEach(reg, store + added, marker, mark, markables) == store
  {
    UnmarkEachAppend(reg, store, added, marker, mark, markables);
    UnmarkEachUntouched(reg, store, marker, mark, markables);
    var gone := UnmarkEach(reg, added, marker, mark, markables);
    forall row ensures multiset(gone)[row] == 0 {
      if row !in added {
        assert multiset(added)[row] == 0;
      }
    }
    EmptyByCount(gone);
    assert store + [] == store;
  }
}
