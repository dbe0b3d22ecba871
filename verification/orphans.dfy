/**
 * Cascading deletion of a destroyed record's marks, and `Mark.delete_orphans`
 * for rows left behind when records were deleted without the cascade.
 */
module Orphans {
  import opened Wrappers
  import opened Seqs
  import opened Rows
  import opened Registry
  import opened ActsAsMarkable

  /** A row whose marker or markable record no longer exists. */
  predicate Orphan(row: Row, live: set<Ref>)
  {
    row.marker !in live || row.markable !in live
  }

  /**
   * `Mark.delete_orphans` over the existing records `live`: delete every
   * orphan row and return how many were deleted. A row whose records both
   * exist is kept with its multiplicity.
   */
  method DeleteOrphans(store: Store, live: set<Ref>) returns (kept: Store, count: nat)
    ensures forall row :: multiset(kept)[row] == if Orphan(row, live) then 0 else multiset(store)[row]
    ensures forall row :: row in kept ==> !Orphan(row, live)
    ensures count == |store| - |kept|
    ensures (forall i :: 0 <= i < |store| ==> !Orphan(store[i], live)) ==> kept == store && count == 0
    ensures NoDup(store) ==> NoDup(kept)
  {
    kept := [];
    count := 0;
    var i := 0;
    while i < |store|
      invariant 0 <= i <= |store|
      invariant forall row :: multiset(kept)[row] == if Orphan(row, live) then 0 else multiset(store[..i])[row]
      invariant |kept| <= i && count == i - |kept|
      invariant (forall j :: 0 <= j < i ==> !Orphan(store[j], live)) ==> kept == store[..i]
      invariant NoDup(store) ==> NoDup(kept)
    {
      assert store[..i + 1] == store[..i] + [store[i]];
      if Orphan(store[i], live) {
        count := count + 1;
      } else {
        if NoDup(store) {
          assert store[i] !in store[..i];
          assert multiset(kept)[store[i]] == 0;
          NoDupAppend(kept, store[i]);
        }
        kept := kept + [store[i]];
      }
      i := i + 1;
    }
    assert store[..|store|] == store;
  }

  /** No row of the store is an orphan. */
  ghost predicate NoOrphans(store: Store, live: set<Ref>)
  {
    forall row :: row in store ==> !Orphan(row, live)
  }

  /**
   * Destroying a record: the `dependent: :delete_all` associations remove
   * its rows on the marker side when its class is a marker, and on the
   * markable side when its class is a markable.
   */
  function DestroyRecord(reg: Registry, store: Store, record: Ref): (r: Store)
    ensures forall row :: multiset(r)[row] ==
              if (record.typ in reg.markers && row.marker == record) || (record.typ in reg.markables && row.markable == record)
              then 0 else multiset(store)[row]
    ensures NoDup(store) ==> NoDup(r)
  {
    var afterMarker := if record.typ in reg.markers then DeleteAll(store, Where(Some(record), None, None)) else store;
    if record.typ in reg.markables then DeleteAll(afterMarker, Where(None, Some(record), None)) else afterMarker
  }

  /**
   * When every row's classes are registered, destroying a record leaves no
   * orphans behind: a store without orphans stays without them once the
   * record is gone, so `delete_orphans` then finds nothing.
   */
  lemma DestroyLeavesNoOrphans(reg: Registry, store: Store, live: set<Ref>, record: Ref)
    requires TypesRegistered(reg, store) && NoOrphans(store, live)
    ensures NoOrphans(DestroyRecord(reg, store, record), live - {record})
  {
    var r := DestroyRecord(reg, store, record);
    forall row | row in r ensures !Orphan(row, live - {record}) {
      assert multiset(r)[row] > 0;
      assert multiset(store)[row] > 0;
      assert row in store;
    }
  }

  /**
   * Deleting a record without the cascade orphans exactly the rows that
   * reference it, which are the rows `delete_orphans` will remove.
   */
  lemma BypassOrphansExactly(store: Store, live: set<Ref>, record: Ref, row: Row)
    requires NoOrphans(store, live) && row in store
    ensures Orphan(row, live - {record}) <==> row.marker == record || row.markable == record
  {
  }
}
