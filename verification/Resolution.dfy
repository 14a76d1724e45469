/** Category patterns to selector masks. */
module Resolution {
  import opened Wrappers
  import opened Words
  import opened Text
  import opened BookFormat
  import opened BuildSpec
  import opened Queries

  // ----- what a pattern selects

  function Elements<T(==)>(xs: seq<T>): set<T> {
    set x | x in xs
  }

  /** The category is `name` itself or one of its descendants. */
  predicate Under(cat: Bytes, name: Bytes) {
    cat == name || name + [SLASH] <= cat
  }

  ghost function Selected(b: RawBook, names: set<Bytes>): set<nat> {
    set i, n | 0 <= i < |b.categories| && n in names && Under(b.categories[i].name, n) :: i
  }

  ghost predicate Known(b: RawBook, name: Bytes) {
    exists i :: 0 <= i < |b.categories| && Under(b.categories[i].name, name)
  }

  /** The answer to a non-empty set of normalised names. */
  ghost predicate Answers(b: RawBook, names: set<Bytes>, r: Result<Mask>) {
    && (r.Ok? <==> forall n :: n in names ==> Known(b, n))
    && (r.Ok? ==> |r.value| == b.words && ValidMask(r.value) && Bits(r.value) == Selected(b, names))
  }

  lemma AnswersUnique(b: RawBook, names: set<Bytes>, r: Result<Mask>, r': Result<Mask>)
    requires Answers(b, names, r) && Answers(b, names, r')
    ensures r == r'
  {
    if r.Ok? && r'.Ok? { MaskExtensional(r.value, r'.value); }
  }

  /** In a sorted table the descendants of `name` are the indices between the
      partition points of `name/` and `name0`. */
  lemma DescendantsAreContiguous(b: RawBook, name: Bytes, i: nat)
    requires ValidCategories(b.categories) && i < |b.categories|
    ensures var names := Names(b.categories);
            TextsBelow(names, name + [SLASH], 0, |names|) <= i < TextsBelow(names, name + [ZERO], 0, |names|)
            <==> name + [SLASH] <= b.categories[i].name
  {
    var names := Names(b.categories);
    TextsBelowSplits(names, name + [SLASH], 0, |names|);
    TextsBelowSplits(names, name + [ZERO], 0, |names|);
    PrefixIsRange(name, SLASH, names[i]);
  }

  /** Set the bits `start .. end`. */
  method SetBits(mask: Mask, start: nat, end: nat) returns (mask': Mask)
    requires ValidMask(mask) && end <= 64 * |mask|
    ensures |mask'| == |mask| && ValidMask(mask')
    ensures forall i: nat :: i in Bits(mask') <==> i in Bits(mask) || start <= i < end
  {
    mask' := mask;
    var id := start;
    while id < end
      invariant start <= id && (id <= end || id == start)
      invariant |mask'| == |mask| && ValidMask(mask')
      invariant forall i: nat :: i in Bits(mask') <==> i in Bits(mask) || start <= i < id
    {
      SetBitAdds(mask', id);
      mask' := SetBit(mask', id);
      id := id + 1;
    }
  }

  /** Set the bits of one name; `hit` says whether it names anything. */
  method SelectName(b: RawBook, name: Bytes, mask: Mask, ghost names: set<Bytes>) returns (mask': Mask, hit: bool)
    requires Valid(b) && |mask| == b.words && ValidMask(mask) && Bits(mask) == Selected(b, names)
    ensures |mask'| == b.words && ValidMask(mask') && Bits(mask') == Selected(b, names + {name})
    ensures hit <==> Known(b, name)
  {
    var table := Names(b.categories);
    mask' := mask;
    var exact := name in table;
    if exact {
      SetBitAdds(mask', IdOf(table, name));
      mask' := SetBit(mask', IdOf(table, name));
    }
    ghost var selfMask := mask';
    var start := TextsBelow(table, name + [SLASH], 0, |table|);
    var end := TextsBelow(table, name + [ZERO], 0, |table|);
    mask' := SetBits(mask', start, end);
    hit := exact || start < end;
    NameSelects(b, name, start, end);
    SelectedGrows(b, names, name);
    OnlyOneIndex(b, name);
    assert forall i: nat :: i in Bits(selfMask) <==> i in Bits(mask) || (exact && i == IdOf(table, name));
    assert Bits(mask') == Selected(b, names + {name});
  }

  lemma NameSelects(b: RawBook, name: Bytes, start: nat, end: nat)
    requires Valid(b)
    requires start == TextsBelow(Names(b.categories), name + [SLASH], 0, |b.categories|)
    requires end == TextsBelow(Names(b.categories), name + [ZERO], 0, |b.categories|)
    ensures forall i :: 0 <= i < |b.categories| ==>
              (Under(b.categories[i].name, name) <==> b.categories[i].name == name || start <= i < end)
    ensures Known(b, name) <==> name in Names(b.categories) || start < end
  {
    forall i | 0 <= i < |b.categories|
      ensures Under(b.categories[i].name, name) <==> b.categories[i].name == name || start <= i < end
    {
      DescendantsAreContiguous(b, name, i);
    }
    if name in Names(b.categories) {
      var i :| 0 <= i < |b.categories| && Names(b.categories)[i] == name;
      assert Under(b.categories[i].name, name);
    }
    if start < end { assert Under(b.categories[start].name, name); }
  }

  lemma OnlyOneIndex(b: RawBook, name: Bytes)
    requires Valid(b)
    ensures forall i, j :: 0 <= i < j < |b.categories| ==> b.categories[i].name != name || b.categories[j].name != name
  {
    LessConnected(name, name);
    var names := Names(b.categories);
    forall i, j | 0 <= i < j < |names| ensures names[i] != name || names[j] != name {
      assert Less(names[i], names[j]);
    }
  }

  lemma SelectedGrows(b: RawBook, names: set<Bytes>, name: Bytes)
    ensures Selected(b, names + {name}) ==
            Selected(b, names) + set i | 0 <= i < |b.categories| && Under(b.categories[i].name, name)
  {
    assert name in names + {name};
  }

  /** The computation behind the cache. */
  method ResolveUncached(b: RawBook, names: seq<Bytes>) returns (r: Result<Mask>)
    requires Valid(b)
    ensures Answers(b, Elements(names), r)
  {
    var mask := Zeros(b.words);
    ZerosEmpty(b.words);
    for k := 0 to |names|
      invariant |mask| == b.words && ValidMask(mask) && Bits(mask) == Selected(b, Elements(names[..k]))
      invariant forall i :: 0 <= i < k ==> Known(b, names[i])
    {
      var hit;
      assert names[..k + 1] == names[..k] + [names[k]];
      assert Elements(names[..k + 1]) == Elements(names[..k]) + {names[k]};
      mask, hit := SelectName(b, names[k], mask, Elements(names[..k]));
      if !hit {
        assert names[k] in names;
        return Err;
      }
    }
    assert names[..|names|] == names;
    r := Ok(mask);
  }
}
