/** Canonical segment lists are unique: the sweep's output is a function of the
    covering relation alone, whatever the order or repetition of its input. */
module CanonicalForm {
  import opened Words
  import opened Sweeping

  lemma InSegment(segs: seq<Segment>, words: nat, i: nat, p: int)
    requires Canonical(segs, words) && i < |segs| && segs[i].lo <= p <= segs[i].hi
    ensures CatsIn(segs, p) == Bits(segs[i].mask)
  {
    forall j | 0 <= j < |segs| && segs[j].lo <= p <= segs[j].hi ensures j == i {}
  }

  lemma SomeSegment(segs: seq<Segment>, p: int) returns (i: nat)
    requires CatsIn(segs, p) != {}
    ensures i < |segs| && segs[i].lo <= p <= segs[i].hi
  {
    var c :| c in CatsIn(segs, p);
    i :| 0 <= i < |segs| && segs[i].lo <= p <= segs[i].hi && c in Bits(segs[i].mask);
  }

  lemma TailCats(segs: seq<Segment>, words: nat, p: int)
    requires Canonical(segs, words) && segs != []
    ensures CatsIn(segs[1..], p) == if p <= segs[0].hi then {} else CatsIn(segs, p)
  {
    var rest := segs[1..];
    assert forall i :: 0 <= i < |rest| ==> rest[i] == segs[i + 1] && segs[0].hi < segs[i + 1].lo;
    if p > segs[0].hi {
      forall c | c in CatsIn(segs, p) ensures c in CatsIn(rest, p) {
        var i :| 0 <= i < |segs| && segs[i].lo <= p <= segs[i].hi && c in Bits(segs[i].mask);
        assert rest[i - 1] == segs[i];
      }
    }
  }

  /** Equal categories everywhere force equal first segments: one cannot start
      earlier, and one cannot end earlier without leaving an unmerged neighbour. */
  lemma FirstNotShorter(a: seq<Segment>, b: seq<Segment>, words: nat)
    requires Canonical(a, words) && Canonical(b, words) && a != [] && b != []
    requires forall p :: CatsIn(a, p) == CatsIn(b, p)
    ensures a[0].lo <= b[0].lo
    ensures a[0].lo == b[0].lo ==> a[0].mask == b[0].mask && b[0].hi <= a[0].hi
  {
    InSegment(b, words, 0, b[0].lo);
    var i := SomeSegment(a, b[0].lo);
    assert i > 0 ==> a[0].hi < a[i].lo;
    if a[0].lo == b[0].lo {
      InSegment(a, words, 0, a[0].lo);
      MaskExtensional(a[0].mask, b[0].mask);
      if a[0].hi < b[0].hi {
        var p := a[0].hi + 1;
        InSegment(b, words, 0, p);
        var j := SomeSegment(a, p);
        assert a[0].hi < a[1].lo;
        assert j == 1 && a[1].lo == p;
        InSegment(a, words, 1, p);
        MaskExtensional(a[1].mask, a[0].mask);
        assert false;
      }
    }
  }

  /** Two canonical lists with the same categories at every position are equal. */
  lemma {:induction false} CanonicalUnique(a: seq<Segment>, b: seq<Segment>, words: nat)
    requires Canonical(a, words) && Canonical(b, words)
    requires forall p :: CatsIn(a, p) == CatsIn(b, p)
    ensures a == b
  {
    if a != [] { InSegment(a, words, 0, a[0].lo); var i := SomeSegment(b, a[0].lo); }
    if b != [] { InSegment(b, words, 0, b[0].lo); var i := SomeSegment(a, b[0].lo); }
    if a != [] && b != [] {
      FirstNotShorter(a, b, words);
      FirstNotShorter(b, a, words);
      assert a[0] == b[0];
      forall p ensures CatsIn(a[1..], p) == CatsIn(b[1..], p) {
        TailCats(a, words, p);
        TailCats(b, words, p);
      }
      CanonicalUnique(a[1..], b[1..], words);
    }
  }

  /** The sweep sees its ranges as a set. */
  lemma SweepSeesASet(xs: seq<RawRange>, ys: seq<RawRange>, a: seq<Segment>, b: seq<Segment>, words: nat)
    requires forall r :: r in xs <==> r in ys
    requires Canonical(a, words) && forall p: nat :: CatsIn(a, p) == CatsAt(xs, p)
    requires Canonical(b, words) && forall p: nat :: CatsIn(b, p) == CatsAt(ys, p)
    ensures a == b
  {
    forall p ensures CatsIn(a, p) == CatsIn(b, p) {
      if p >= 0 { assert CatsAt(xs, p) == CatsAt(ys, p); }
    }
    CanonicalUnique(a, b, words);
  }
}
