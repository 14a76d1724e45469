/** Interning of category masks: each distinct mask gets the next id at its
    first use. */
module Interning {
  import opened Words
  import opened Flattening

  /** The table once `m` has been interned too. */
  function Extend(table: seq<Mask>, m: Mask): seq<Mask> {
    if m in table then table else table + [m]
  }

  /** The distinct masks in order of first use. */
  function TableOf(masks: seq<Mask>): seq<Mask> {
    if masks == [] then [] else Extend(TableOf(masks[..|masks| - 1]), masks[|masks| - 1])
  }

  lemma {:induction false} TableOfDistinct(masks: seq<Mask>)
    ensures forall m :: m in TableOf(masks) <==> m in masks
    ensures forall i, j :: 0 <= i < j < |TableOf(masks)| ==> TableOf(masks)[i] != TableOf(masks)[j]
  {
    if masks != [] {
      TableOfDistinct(masks[..|masks| - 1]);
      assert masks == masks[..|masks| - 1] + [masks[|masks| - 1]];
    }
  }

  lemma {:induction false} TableSmall(masks: seq<Mask>)
    ensures |TableOf(masks)| <= |masks|
  {
    if masks != [] { TableSmall(masks[..|masks| - 1]); }
  }

  lemma {:induction false} FlattenValid(rows: seq<Mask>)
    requires forall m :: m in rows ==> ValidMask(m)
    ensures ValidMask(Flatten(rows))
  {
    if rows != [] {
      assert rows[|rows| - 1] in rows;
      FlattenValid(rows[..|rows| - 1]);
    }
  }

  /** The interner whose hash map is `ids` has filled `catsets` with `table`. */
  ghost predicate Interned(ids: map<Mask, nat>, catsets: Mask, table: seq<Mask>) {
    && catsets == Flatten(table)
    && |ids| == |table|
    && (forall m :: m in ids <==> m in table)
    && (forall m :: m in ids ==> ids[m] < |table| && table[ids[m]] == m)
  }

  lemma {:induction false} TableGrows(seen: seq<Mask>, more: seq<Mask>)
    ensures TableOf(seen) <= TableOf(seen + more)
  {
    if more == [] {
      assert seen + more == seen;
    } else {
      var all := seen + more;
      assert all[..|all| - 1] == seen + more[..|more| - 1];
      TableGrows(seen, more[..|more| - 1]);
    }
  }

  lemma StreamStep(seen: seq<Mask>, masks: seq<Mask>, i: nat)
    requires i < |masks|
    ensures TableOf(seen + masks[..i + 1]) == Extend(TableOf(seen + masks[..i]), masks[i])
    ensures masks[..i + 1] == masks[..i] + [masks[i]]
  {
    var all := seen + masks[..i + 1];
    assert all[..|all| - 1] == seen + masks[..i];
  }

  /** `intern(mask)` */
  method Intern(ids: map<Mask, nat>, catsets: Mask, mask: Mask, ghost table: seq<Mask>)
      returns (ids': map<Mask, nat>, catsets': Mask, id: nat)
    requires Interned(ids, catsets, table)
    ensures Interned(ids', catsets', Extend(table, mask))
    ensures id < |Extend(table, mask)| && Extend(table, mask)[id] == mask
  {
    if mask in ids {
      return ids, catsets, ids[mask];
    }
    FlattenSnoc(table, mask);
    id := |ids|;
    catsets' := catsets + mask;
    ids' := ids[mask := id];
  }

  /** The ids point at their masks. */
  ghost predicate Point(out: seq<nat>, masks: seq<Mask>, table: seq<Mask>) {
    |out| == |masks| && forall i :: 0 <= i < |masks| ==> out[i] < |table| && table[out[i]] == masks[i]
  }

  lemma PointSnoc(out: seq<nat>, masks: seq<Mask>, table: seq<Mask>, id: nat, m: Mask, table': seq<Mask>)
    requires Point(out, masks, table) && table <= table' && id < |table'| && table'[id] == m
    ensures Point(out + [id], masks + [m], table')
  {
  }

  /** Intern a stream of masks; ids index the table of everything seen. */
  method InternStream(ids: map<Mask, nat>, catsets: Mask, masks: seq<Mask>, ghost seen: seq<Mask>)
      returns (ids': map<Mask, nat>, catsets': Mask, out: seq<nat>)
    requires Interned(ids, catsets, TableOf(seen))
    ensures Interned(ids', catsets', TableOf(seen + masks))
    ensures Point(out, masks, TableOf(seen + masks))
  {
    ids', catsets', out := ids, catsets, [];
    assert seen + masks[..0] == seen;
    ghost var table := TableOf(seen);
    for i := 0 to |masks|
      invariant table == TableOf(seen + masks[..i])
      invariant Interned(ids', catsets', table) && Point(out, masks[..i], table)
    {
      StreamStep(seen, masks, i);
      var id;
      ids', catsets', id := Intern(ids', catsets', masks[i], table);
      PointSnoc(out, masks[..i], table, id, masks[i], Extend(table, masks[i]));
      out := out + [id];
      table := Extend(table, masks[i]);
    }
    assert masks[..|masks|] == masks;
  }
}
