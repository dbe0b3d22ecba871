/**
 * The `delete` that `have_marked_as_by` attaches to its result: authorize
 * every given marker against this markable, then `remove_mark` for each.
 */
module QueryResults {
  import opened Wrappers
  import opened Seqs
  import opened Names
  import opened Rows
  import opened Registry
  import opened Authorization
  import opened ActsAsMarkable
  import opened ActsAsMarker

  /** The per-marker loop of the `delete`, once every marker is authorized. */
  function RemoveEach(reg: Registry, store: Store, markable: Ref, mark: Mark, markers: seq<Ref>): (r: Store)
    requires forall i :: 0 <= i < |markers| ==> Admissible(reg, markers[i], markable, mark)
    decreases |markers|
    ensures r == DeleteEach(store, markable, mark, markers)
  {
    if |markers| == 0 then store
    else
      RemoveMarkOne(reg, store, markers[0], markable, mark);
      assert forall i :: 0 <= i < |markers[1..]| ==> markers[1..][i] == markers[i + 1];
      RemoveEach(reg, RemoveMark(reg, store, markers[0], mark, [markable]).store, markable, mark, markers[1..])
  }

  /** `remove_mark` of one authorized markable is one `delete_all` of that exact row. */
  lemma RemoveMarkOne(reg: Registry, store: Store, marker: Ref, markable: Ref, mark: Mark)
    requires Admissible(reg, marker, markable, mark)
    ensures RemoveMark(reg, store, marker, mark, [markable]).store == DeleteAll(store, Where(Some(marker), Some(markable), Some(mark)))
  {
    var w := Where(Some(marker), Some(markable), Some(mark));
    CanMarkOrRaiseSingle(reg, marker, markable, mark);
    assert [markable][1..] == [] && [marker][1..] == [];
    UnmarkEachIsDeleteEach(reg, store, marker, mark, [markable]);
    assert DeleteEach(store, markable, mark, [marker]) == DeleteAll(store, w);
    assert UnmarkEach(reg, store, marker, mark, [markable]) == DeleteEach(store, markable, mark, [marker]);
  }

  /**
   * `markable.have_marked_as_by(mark, Target).delete(markers)`: all markers
   * are authorized before any row is removed; then exactly their rows for
   * this markable and mark go.
   */
  function HaveMarkedAsByDelete(reg: Registry, store: Store, markable: Ref, mark: Mark, markers: seq<Ref>): (r: Step)
    ensures r.Raised? ==> r.store == store
    ensures r.Raised? ==> CanMarkOrRaise(reg, markers, [markable], mark) == Failure(r.error)
    ensures r.Done? <==> forall i :: 0 <= i < |markers| ==> Admissible(reg, markers[i], markable, mark)
    ensures r.Done? ==>
              forall row :: multiset(r.store)[row] ==
                if Targeted(row, markable, mark, markers) then 0 else multiset(store)[row]
    ensures NoDup(store) ==> NoDup(r.store)
  {
    match CanMarkOrRaise(reg, markers, [markable], mark)
    case Failure(e) => Raised(store, e)
    case Success(_) =>
      assert forall i :: 0 <= i < |markers| ==> Admissible(reg, markers[i], [markable][0], mark);
      Done(RemoveEach(reg, store, markable, mark, markers))
  }

  /**
   * Deleting through the query result has the effect of `unmark(mark, by:
   * markers)` for a non-empty list, while with no markers it removes
   * nothing (where `unmark` with no markers removes every marker's row).
   */
  lemma DeleteIsUnmark(reg: Registry, store: Store, markable: Ref, mark: Mark, markers: seq<Ref>)
    ensures |markers| > 0 ==> HaveMarkedAsByDelete(reg, store, markable, mark, markers) == Unmark(reg, store, markable, mark, markers)
    ensures |markers| == 0 ==> HaveMarkedAsByDelete(reg, store, markable, mark, markers) == Done(store)
  {
  }
}
