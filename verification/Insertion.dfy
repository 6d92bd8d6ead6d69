/**
 The steps of hashmap_base_put_boldly around the scan: a new entry is placed in
 slot IDX_PUT and becomes the newest entry of the list.
 */
module Insertion {
  import opened HashOps
  import opened Ring
  import opened Table
  import opened RobinHood
  import opened State
  import opened Rehash

  /** The table with other things in the swap slots. */
  ghost function WithSlots(t: Table, put: Entry, tmp: Entry): Table {
    t.(entries := t.entries[IDX_PUT := put][IDX_TMP := tmp])
  }

  lemma SlotsIrrelevant(c: Config, t: Table, order: seq<nat>, put: Entry, tmp: Entry)
    requires Core(c, t, order) && IDX_PUT !in order
    ensures var u := WithSlots(t, put, tmp);
            && Core(c, u, order) && Contents(u, order) == Contents(t, order)
            && Profile(c, u) == Profile(c, t)
  {
    var u := WithSlots(t, put, tmp);
    assert u.Sized();
    assert Places(u, order);
    forall i | 0 <= i < t.n
      ensures BucketOk(c, u, order, i) && Displacement(c, u, i) == Displacement(c, t, i)
    {
      assert BucketOk(c, t, order, i);
    }
    assert Profile(c, u) == Profile(c, t);
    if c.ordered {
      forall k | 0 <= k < |order| ensures LinkedAt(u, order, k) {
        assert LinkedAt(t, order, k);
      }
    }
    assert Contents(u, order) == Contents(t, order);
  }

  /** The entry in slot IDX_PUT is linked behind the newest entry. */
  function Append(t: Table, ordered: bool): (u: Table)
    requires IDX_PUT in t.entries
    ensures u.n == t.n && u.dibs == t.dibs && u.entries.Keys == t.entries.Keys
  {
    if !ordered then t else
      var m := t.entries[IDX_PUT := t.entries[IDX_PUT].(next := IDX_NIL, prev := t.tail)];
      t.(entries := WithNext(m, t.tail, IDX_PUT),
         tail := IDX_PUT,
         head := if t.head == IDX_NIL then IDX_PUT else t.head)
  }

  lemma AppendLinks(t: Table, order: seq<nat>)
    requires t.Sized() && Places(t, order) && Linked(t, order) && IDX_PUT !in order
    ensures var u, o := Append(t, true), order + [IDX_PUT];
            Places(u, o) && Linked(u, o)
  {
    var u, o := Append(t, true), order + [IDX_PUT];
    forall k | 0 <= k < |o| ensures o[k] in u.entries && LinkedAt(u, o, k) {
      if k < |order| {
        assert LinkedAt(t, order, k);
      }
    }
  }

  lemma AppendKeepsCore(c: Config, t: Table, order: seq<nat>)
    requires Core(c, t, order) && IDX_PUT !in order
    ensures var u, o := Append(t, c.ordered), order + [IDX_PUT];
            && Core(c, u, o)
            && Contents(u, o) == Contents(t, order) + [t.entries[IDX_PUT].Stored()]
            && u.entries[IDX_PUT].key == t.entries[IDX_PUT].key
  {
    var u, o := Append(t, c.ordered), order + [IDX_PUT];
    assert u.Sized();
    if c.ordered {
      AppendLinks(t, order);
    }
    forall i | 0 <= i < t.n
      ensures BucketOk(c, u, o, i) && Displacement(c, u, i) == Displacement(c, t, i)
    {
      assert BucketOk(c, t, order, i);
      assert u.entries[i].Stored() == t.entries[i].Stored();
    }
    assert Profile(c, u) == Profile(c, t);
    assert Contents(u, o) == Contents(t, order) + [t.entries[IDX_PUT].Stored()];
  }

  /** A quiet table that takes a new entry into its list is ready for the scan. */
  lemma ReadyToInsert(c: Config, t: Table, u: Table, order: seq<nat>, o: seq<nat>, put: Entry, tmp: Entry) returns (room: nat)
    requires c.ops.Lawful() && Quiet(c, t, order) && |order| < t.n
    requires Lookup(c.ops, Contents(t, order), put.key) == |order|
    requires u == Append(WithSlots(t, put, tmp), c.ordered) && o == order + [IDX_PUT]
    ensures Core(c, u, o) && IDX_PUT in o && u.n == t.n && u.dibs == t.dibs
    ensures Places(t, order) && Contents(u, o) == Contents(t, order) + [put.Stored()]
    ensures u.entries[IDX_PUT].key == put.key
    ensures UniqueKeys(c.ops, Contents(u, o))
    ensures room < u.n && Profile(c, u)[room] == -1
  {
    SlotsIrrelevant(c, t, order, put, tmp);
    AppendKeepsCore(c, WithSlots(t, put, tmp), order);
    AppendKeepsUnique(c.ops, Contents(t, order), put.Stored());
    room := FindRoom(c, u, o);
  }
}
