/** 64-bit words as naturals, and the category bitmaps made of them.
    Bit `i` of a mask is bit `i % 64` of word `i / 64`. */
module Words {

  const WORD_LIMIT: nat := 0x1_0000_0000_0000_0000

  const U128_MAX: nat := 0xFFFF_FFFF_FFFF_FFFF_FFFF_FFFF_FFFF_FFFF

  type Mask = seq<nat>

  function Pow2(n: nat): (r: nat)
    ensures r >= 1
  {
    if n == 0 then 1 else 2 * Pow2(n - 1)
  }

  lemma MulSmall(a: int, d: int, r: int)
    requires a * d == r && -d < r < d
    ensures a == 0 && r == 0
  {
  }

  lemma {:induction false} Pow2Add(a: nat, b: nat)
    ensures Pow2(a + b) == Pow2(a) * Pow2(b)
  {
    if a > 0 { Pow2Add(a - 1, b); }
  }

  lemma Pow2Squares(n: nat, v: nat)
    requires Pow2(n) == v
    ensures Pow2(2 * n) == v * v
  {
    Pow2Add(n, n);
  }

  lemma Pow2Limits()
    ensures Pow2(32) == 0x1_0000_0000 && Pow2(64) == WORD_LIMIT
    ensures Pow2(128) == 0x1_0000_0000_0000_0000_0000_0000_0000_0000
  {
    Pow2Squares(8, 0x100);
    Pow2Squares(16, 0x1_0000);
    Pow2Squares(32, 0x1_0000_0000);
    Pow2Squares(64, WORD_LIMIT);
  }

  /** `w & (1 << k) != 0` */
  predicate TestBit(w: nat, k: nat)
    decreases k
  {
    if k == 0 then w % 2 == 1 else TestBit(w / 2, k - 1)
  }

  /** `w | (1 << k)` */
  function OrBit(w: nat, k: nat): nat
    decreases k
  {
    if k == 0 then (if w % 2 == 1 then w else w + 1) else 2 * OrBit(w / 2, k - 1) + w % 2
  }

  /** `a | b` */
  function Or(a: nat, b: nat): nat
    decreases a + b
  {
    if a == 0 then b else if b == 0 then a
    else 2 * Or(a / 2, b / 2) + (if a % 2 == 1 || b % 2 == 1 then 1 else 0)
  }

  /** `a & b` */
  function And(a: nat, b: nat): nat
    decreases a
  {
    if a == 0 then 0
    else 2 * And(a / 2, b / 2) + (if a % 2 == 1 && b % 2 == 1 then 1 else 0)
  }

  lemma {:induction false} ZeroHasNoBits(k: nat)
    ensures !TestBit(0, k)
  {
    if k > 0 { ZeroHasNoBits(k - 1); }
  }

  lemma {:induction false} OrBitSets(w: nat, k: nat, j: nat)
    ensures TestBit(OrBit(w, k), j) <==> j == k || TestBit(w, j)
  {
    if k > 0 && j > 0 { OrBitSets(w / 2, k - 1, j - 1); }
  }

  lemma {:induction false} OrBitBound(w: nat, k: nat, n: nat)
    requires w < Pow2(n) && k < n
    ensures OrBit(w, k) < Pow2(n)
  {
    assert Pow2(n) == 2 * Pow2(n - 1);
    if k > 0 { OrBitBound(w / 2, k - 1, n - 1); }
  }

  lemma {:induction false} OrSets(a: nat, b: nat, j: nat)
    ensures TestBit(Or(a, b), j) <==> TestBit(a, j) || TestBit(b, j)
    decreases j
  {
    ZeroHasNoBits(j);
    if j > 0 && a > 0 && b > 0 { OrSets(a / 2, b / 2, j - 1); }
  }

  lemma {:induction false} OrBound(a: nat, b: nat, n: nat)
    requires a < Pow2(n) && b < Pow2(n)
    ensures Or(a, b) < Pow2(n)
  {
    if n > 0 && a > 0 && b > 0 { OrBound(a / 2, b / 2, n - 1); }
  }

  lemma {:induction false} AndKeepsBit(a: nat, b: nat, k: nat)
    requires TestBit(a, k) && TestBit(b, k)
    ensures And(a, b) != 0
    decreases k
  {
    ZeroHasNoBits(k);
    if k > 0 { AndKeepsBit(a / 2, b / 2, k - 1); }
  }

  /** A common bit of two words is what makes their conjunction non-zero. */
  lemma {:induction false} AndNonZero(a: nat, b: nat, n: nat)
    requires a < Pow2(n)
    ensures And(a, b) != 0 <==> exists k: nat :: k < n && TestBit(a, k) && TestBit(b, k)
    decreases n
  {
    if n > 0 {
      AndNonZero(a / 2, b / 2, n - 1);
      if a > 0 && And(a, b) != 0 {
        if a % 2 == 1 && b % 2 == 1 {
          var k: nat :| k < 1;
          assert k < n && TestBit(a, k) && TestBit(b, k);
        } else {
          var k: nat :| k < n - 1 && TestBit(a / 2, k) && TestBit(b / 2, k);
          assert TestBit(a, k + 1) && TestBit(b, k + 1);
        }
        assert exists k: nat :: k < n && TestBit(a, k) && TestBit(b, k);
      }
    }
    forall k: nat | k < n && TestBit(a, k) && TestBit(b, k) ensures And(a, b) != 0 {
      AndKeepsBit(a, b, k);
    }
  }

  lemma {:induction false} HighBit(w: nat, r: nat, n: nat) returns (k: nat)
    requires Pow2(r) <= w < Pow2(n)
    ensures r <= k < n && TestBit(w, k)
    decreases n
  {
    if w == 1 {
      k := 0;
    } else {
      k := HighBit(w / 2, if r == 0 then 0 else r - 1, n - 1);
      k := k + 1;
    }
  }

  lemma {:induction false} LowWord(w: nat, r: nat, k: nat)
    requires w < Pow2(r) && r <= k
    ensures !TestBit(w, k)
    decreases k
  {
    ZeroHasNoBits(k);
    if k > 0 && r > 0 { LowWord(w / 2, r - 1, k - 1); }
  }

  /** Bits from `r` on are all clear exactly when the word is below `2^r`. */
  lemma BelowPow2(w: nat, r: nat, n: nat)
    requires w < Pow2(n)
    ensures w < Pow2(r) <==> forall k: nat :: r <= k < n ==> !TestBit(w, k)
  {
    if w < Pow2(r) {
      forall k: nat | r <= k < n ensures !TestBit(w, k) { LowWord(w, r, k); }
    } else {
      var k := HighBit(w, r, n);
      assert exists k: nat :: r <= k < n && TestBit(w, k);
    }
  }

  /** A word is determined by its bits. */
  lemma {:induction false} WordExtensional(a: nat, b: nat, n: nat)
    requires a < Pow2(n) && b < Pow2(n)
    requires forall k: nat :: k < n ==> TestBit(a, k) == TestBit(b, k)
    ensures a == b
  {
    if n > 0 {
      forall k: nat | k < n - 1 ensures TestBit(a / 2, k) == TestBit(b / 2, k) {
        assert TestBit(a, k + 1) == TestBit(b, k + 1);
      }
      WordExtensional(a / 2, b / 2, n - 1);
      assert TestBit(a, 0) == TestBit(b, 0);
    }
  }

  // ----- masks

  predicate ValidMask(m: Mask) {
    forall i :: 0 <= i < |m| ==> m[i] < WORD_LIMIT
  }

  /** `get_bit`: false outside the mask. */
  predicate GetBit(m: Mask, id: nat) {
    id / 64 < |m| && TestBit(m[id / 64], id % 64)
  }

  /** `set_bit`: a no-op outside the mask. */
  function SetBit(m: Mask, id: nat): Mask {
    if id / 64 < |m| then m[id / 64 := OrBit(m[id / 64], id % 64)] else m
  }

  /** The ids a mask holds. */
  ghost function Bits(m: Mask): set<nat> {
    set id: nat | id < 64 * |m| && GetBit(m, id)
  }

  function Zeros(words: nat): Mask {
    seq(words, _ => 0)
  }

  lemma GetBitIsMembership(m: Mask, id: nat)
    ensures GetBit(m, id) <==> id in Bits(m)
  {
  }

  lemma ZerosEmpty(words: nat)
    ensures Bits(Zeros(words)) == {} && ValidMask(Zeros(words))
  {
    forall id: nat | id < 64 * words ensures !GetBit(Zeros(words), id) {
      ZeroHasNoBits(id % 64);
    }
  }

  /** Setting a bit adds its id, or nothing beyond the mask. */
  lemma SetBitAdds(m: Mask, id: nat)
    requires ValidMask(m)
    ensures Bits(SetBit(m, id)) == Bits(m) + if id < 64 * |m| then {id} else {}
    ensures ValidMask(SetBit(m, id)) && |SetBit(m, id)| == |m|
  {
    if id / 64 >= |m| { return; }
    SetBitValid(m, id);
    var r := SetBit(m, id);
    forall j: nat ensures j in Bits(r) <==> j in Bits(m) + {id} {
      SetBitAt(m, id, j);
      GetBitIsMembership(m, j);
      GetBitIsMembership(r, j);
    }
  }

  lemma SetBitValid(m: Mask, id: nat)
    requires ValidMask(m) && id < 64 * |m|
    ensures ValidMask(SetBit(m, id))
  {
    Pow2Limits();
    OrBitBound(m[id / 64], id % 64, 64);
  }

  lemma SetBitAt(m: Mask, id: nat, j: nat)
    requires id < 64 * |m|
    ensures GetBit(SetBit(m, id), j) <==> j == id || GetBit(m, j)
  {
    OrBitSets(m[id / 64], id % 64, j % 64);
    assert j / 64 == id / 64 && j % 64 == id % 64 ==> j == id;
  }

  /** A mask is determined by its length and the ids it holds. */
  lemma MaskExtensional(a: Mask, b: Mask)
    requires ValidMask(a) && ValidMask(b) && |a| == |b| && Bits(a) == Bits(b)
    ensures a == b
  {
    Pow2Limits();
    forall i | 0 <= i < |a| ensures a[i] == b[i] {
      forall k: nat | k < 64 ensures TestBit(a[i], k) == TestBit(b[i], k) {
        var id := 64 * i + k;
        assert id / 64 == i && id % 64 == k;
        assert GetBit(a, id) <==> id in Bits(a);
        assert GetBit(b, id) <==> id in Bits(b);
      }
      WordExtensional(a[i], b[i], 64);
    }
  }

  /** `a.iter().zip(b).any(|(x, y)| x & y != 0)` */
  predicate Intersects(a: Mask, b: Mask) {
    exists i :: 0 <= i < |a| && i < |b| && And(a[i], b[i]) != 0
  }

  lemma CommonBit(a: Mask, b: Mask, i: nat) returns (id: nat)
    requires ValidMask(a) && i < |a| && i < |b| && And(a[i], b[i]) != 0
    ensures id in Bits(a) && id in Bits(b)
  {
    Pow2Limits();
    AndNonZero(a[i], b[i], 64);
    var k: nat :| k < 64 && TestBit(a[i], k) && TestBit(b[i], k);
    id := 64 * i + k;
    assert id / 64 == i && id % 64 == k;
  }

  lemma IntersectsIsCommonBit(a: Mask, b: Mask)
    requires ValidMask(a)
    ensures Intersects(a, b) <==> Bits(a) * Bits(b) != {}
  {
    if i :| 0 <= i < |a| && i < |b| && And(a[i], b[i]) != 0 {
      var id := CommonBit(a, b, i);
      assert id in Bits(a) * Bits(b);
    }
    if id :| id in Bits(a) * Bits(b) {
      AndKeepsBit(a[id / 64], b[id / 64], id % 64);
    }
  }

  /** `acc[i] |= word` for each word of `m`. */
  function OrMask(acc: Mask, m: Mask): Mask
    requires |m| <= |acc|
  {
    seq(|acc|, i requires 0 <= i < |acc| => if i < |m| then Or(acc[i], m[i]) else acc[i])
  }

  lemma OrMaskUnites(acc: Mask, m: Mask)
    requires |m| <= |acc| && ValidMask(acc) && ValidMask(m)
    ensures Bits(OrMask(acc, m)) == Bits(acc) + Bits(m)
    ensures ValidMask(OrMask(acc, m)) && |OrMask(acc, m)| == |acc|
  {
    Pow2Limits();
    var r := OrMask(acc, m);
    forall i | 0 <= i < |acc| ensures r[i] < WORD_LIMIT {
      if i < |m| { OrBound(acc[i], m[i], 64); }
    }
    forall id: nat | id < 64 * |acc| ensures GetBit(r, id) <==> GetBit(acc, id) || GetBit(m, id) {
      if id / 64 < |m| { OrSets(acc[id / 64], m[id / 64], id % 64); }
    }
    forall id: nat ensures id in Bits(r) <==> id in Bits(acc) + Bits(m) {}
  }
}
