/**
 * The marks store: a table of rows (marker_type, marker_id, markable_type,
 * markable_id, mark) with no unique index, so uniqueness of rows is an
 * invariant the operations must keep rather than something the store enforces.
 */
module Rows {
  import opened Wrappers
  import opened Seqs
  import opened Names

  /** A record's primary key. */
  type Id = int

  /** A record, identified by its class name and primary key. */
  datatype Ref = Ref(typ: TypeName, id: Id)

  /** One row of the marks table (the creation timestamp is not modelled). */
  datatype Row = Row(marker: Ref, markable: Ref, mark: Mark)

  type Store = seq<Row>

  /** A `where` hash over the marks table: every given column must match. */
  datatype Where = Where(marker: Option<Ref>, markable: Option<Ref>, mark: Option<Mark>)

  predicate Matches(w: Where, row: Row)
  {
    && (w.marker.None? || w.marker.value == row.marker)
    && (w.markable.None? || w.markable.value == row.markable)
    && (w.mark.None? || w.mark.value == row.mark)
  }

  /** `Mark.exists?(params)`. */
  predicate Exists(store: Store, w: Where)
  {
    exists i :: 0 <= i < |store| && Matches(w, store[i])
  }

  /**
   * `Mark.where(params).delete_all`: every matching row goes, every other row
   * stays with its multiplicity.
   */
  function DeleteAll(store: Store, w: Where): (r: Store)
    ensures forall row :: multiset(r)[row] == if Matches(w, row) then 0 else multiset(store)[row]
    ensures (forall i :: 0 <= i < |store| ==> !Matches(w, store[i])) ==> r == store
    ensures NoDup(store) ==> NoDup(r)
  {
    if |store| == 0 then []
    else
      var rest := DeleteAll(store[1..], w);
      assert store == [store[0]] + store[1..];
      assert multiset(store) == multiset{store[0]} + multiset(store[1..]);
      if Matches(w, store[0]) then rest
      else
        assert multiset([store[0]] + rest) == multiset{store[0]} + multiset(rest);
        assert store[0] !in store[1..] ==> store[0] !in rest;
        [store[0]] + rest
  }

  /** Deleting from a concatenation deletes from each part. */
  lemma {:induction false} DeleteAllAppend(s: Store, t: Store, w: Where)
    ensures DeleteAll(s + t, w) == DeleteAll(s, w) + DeleteAll(t, w)
  {
    if |s| == 0 {
      assert s + t == t;
    } else {
      assert (s + t)[1..] == s[1..] + t;
      DeleteAllAppend(s[1..], t, w);
    }
  }
}
