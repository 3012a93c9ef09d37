/** Low-order bits of a hash value: what `hash & ((1 << d) - 1)` and `(i >> d) & 1` compute. */
module Bits {
  import opened Division

  function Pow2(n: nat): (r: nat)
    ensures r >= 1
  {
    if n == 0 then 1 else 2 * Pow2(n - 1)
  }

  /** The low `d` bits of `h`, that is, `h & ((1 << d) - 1)`. */
  function Low(h: nat, d: nat): (r: nat)
    ensures r < Pow2(d)
  {
    if d == 0 then 0 else h % 2 + 2 * Low(h / 2, d - 1)
  }

  /** Bit `d` of `h`, that is, `(h >> d) & 1`. */
  function Bit(h: nat, d: nat): (r: nat)
    ensures r < 2
  {
    if d == 0 then h % 2 else Bit(h / 2, d - 1)
  }

  /** Masking is the remainder modulo the power of two. */
  lemma {:induction false} LowIsRemainder(h: nat, d: nat)
    ensures Low(h, d) == h % Pow2(d)
  {
    if d != 0 {
      LowIsRemainder(h / 2, d - 1);
      HalvedRemainder(h, Pow2(d - 1));
    }
  }

  lemma HalvedRemainder(h: nat, p: nat)
    requires p > 0
    ensures h % (2 * p) == 2 * ((h / 2) % p) + h % 2
  {
    var q := h / 2;
    var a, b := q / p, q % p;
    Decompose(q, p);
    assert (2 * p) * a == 2 * (p * a);
    RemainderIsUnique(h, 2 * p, a, 2 * b + h % 2);
  }

  lemma {:induction false} LowOfLow(h: nat, g: nat, d: nat)
    requires d <= g
    ensures Low(Low(h, g), d) == Low(h, d)
  {
    if d != 0 {
      LowOfLow(h / 2, g - 1, d - 1);
      assert Low(h, g) / 2 == Low(h / 2, g - 1) && Low(h, g) % 2 == h % 2;
    }
  }

  lemma {:induction false} LowOfSmall(i: nat, g: nat)
    requires i < Pow2(g)
    ensures Low(i, g) == i
  {
    if g != 0 {
      LowOfSmall(i / 2, g - 1);
    }
  }

  lemma {:induction false} BitOfLow(h: nat, g: nat, d: nat)
    requires d < g
    ensures Bit(Low(h, g), d) == Bit(h, d)
  {
    if d != 0 {
      BitOfLow(h / 2, g - 1, d - 1);
    }
  }

  /** Agreeing on one more bit is agreeing on the shorter suffix and on that bit. */
  lemma {:induction false} AgreeStep(i: nat, j: nat, d: nat)
    ensures Low(i, d + 1) == Low(j, d + 1) <==> Low(i, d) == Low(j, d) && Bit(i, d) == Bit(j, d)
  {
    if d == 0 {
      assert Low(i / 2, 0) == Low(j / 2, 0) == 0;
    } else {
      AgreeStep(i / 2, j / 2, d - 1);
    }
  }

  /** Agreement on many low bits implies agreement on fewer. */
  lemma {:induction false} AgreeDown(i: nat, j: nat, d: nat, e: nat)
    requires e <= d && Low(i, d) == Low(j, d)
    ensures Low(i, e) == Low(j, e)
  {
    LowOfLow(i, d, e);
    LowOfLow(j, d, e);
  }

  /** The stride of the redistribution loop: adding 2^d keeps the low d bits and flips bit d. */
  lemma {:induction false} AddGap(i: nat, d: nat)
    ensures Low(i + Pow2(d), d) == Low(i, d)
    ensures Bit(i + Pow2(d), d) == 1 - Bit(i, d)
  {
    if d != 0 {
      AddGap(i / 2, d - 1);
      assert (i + Pow2(d)) / 2 == i / 2 + Pow2(d - 1);
    }
  }

  /** Two indices that agree on d low bits are at least 2^d apart. */
  lemma {:induction false} AgreeFarApart(i: nat, j: nat, d: nat)
    requires i < j && Low(i, d) == Low(j, d)
    ensures i + Pow2(d) <= j
  {
    if d != 0 {
      AgreeFarApart(i / 2, j / 2, d - 1);
    }
  }

  lemma {:induction false} BitAbove(i: nat, d: nat)
    requires i < Pow2(d)
    ensures Bit(i, d) == 0
  {
    if d != 0 {
      BitAbove(i / 2, d - 1);
    }
  }

  lemma {:induction false} Pow2Mono(d: nat, g: nat)
    requires d <= g
    ensures Pow2(d) <= Pow2(g)
  {
    if d < g {
      Pow2Mono(d, g - 1);
    }
  }

  /** The indices below 2^g that share the low d bits of i. */
  ghost function SlotsOf(i: nat, d: nat, g: nat): (r: set<nat>) {
    set j: nat | j < Pow2(g) && Low(j, d) == Low(i, d)
  }

  /** The first n natural numbers. */
  ghost function Below(n: nat): (r: set<nat>)
    ensures forall j: nat :: j in r <==> j < n
    ensures |r| == n
  {
    if n == 0 then {} else Below(n - 1) + {n - 1}
  }

  function Spread(q: nat, r: nat): (j: nat) {
    2 * q + r
  }

  ghost function SpreadSet(s: set<nat>, r: nat): (t: set<nat>) {
    set q | q in s :: Spread(q, r)
  }

  lemma {:induction false} SpreadSize(s: set<nat>, r: nat)
    ensures |SpreadSet(s, r)| == |s|
    decreases s
  {
    if s == {} {
      assert SpreadSet(s, r) == {};
    } else {
      var a :| a in s;
      SpreadSize(s - {a}, r);
      assert SpreadSet(s, r) == SpreadSet(s - {a}, r) + {Spread(a, r)};
    }
  }

  lemma HalvedSlot(i: nat, d: nat, g: nat, j: nat, q: nat)
    requires 0 < d <= g && j / 2 == q
    ensures j in SlotsOf(i, d, g) <==> j == Spread(q, i % 2) && q in SlotsOf(i / 2, d - 1, g - 1)
  {
    assert Low(j, d) == j % 2 + 2 * Low(q, d - 1);
    assert Low(i, d) == i % 2 + 2 * Low(i / 2, d - 1);
    assert Pow2(g) == 2 * Pow2(g - 1);
  }

  /** Halving maps the slots that share d bits one to one onto those of the half-size directory. */
  lemma HalvedSlots(i: nat, d: nat, g: nat)
    requires 0 < d <= g
    ensures SlotsOf(i, d, g) == SpreadSet(SlotsOf(i / 2, d - 1, g - 1), i % 2)
  {
    hide SlotsOf;
    var s, t, r := SlotsOf(i / 2, d - 1, g - 1), SlotsOf(i, d, g), i % 2;
    forall j | j in t ensures j in SpreadSet(s, r) {
      HalvedSlot(i, d, g, j, j / 2);
    }
    forall q | q in s ensures Spread(q, r) in t {
      HalvedSlot(i, d, g, Spread(q, r), q);
    }
  }

  /** Exactly 2^(g-d) of the 2^g slots share any given d-bit suffix. */
  lemma {:induction false} SlotCount(i: nat, d: nat, g: nat)
    requires d <= g
    ensures |SlotsOf(i, d, g)| == Pow2(g - d)
  {
    if d == 0 {
      assert SlotsOf(i, d, g) == Below(Pow2(g));
    } else {
      SlotCount(i / 2, d - 1, g - 1);
      HalvedSlots(i, d, g);
      SpreadSize(SlotsOf(i / 2, d - 1, g - 1), i % 2);
    }
  }
}
