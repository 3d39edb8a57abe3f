/** Bit fields of natural numbers: reading, replacing, and byte strings as little-endian numbers. */
module Bits {
  import opened Machine
  import opened LittleEndian

  function Pow2(n: nat): (p: nat)
    ensures p >= 1
  {
    if n == 0 then 1 else 2 * Pow2(n - 1)
  }

  // ---------------------------------------------------------------------
  // Products, quotients and remainders under names of their own, so that the
  // proofs below use the few laws they need and nothing else
  // ---------------------------------------------------------------------

  function Times(a: nat, b: nat): nat {
    MulMono(0, a, b);
    a * b
  }

  function Quot(n: nat, d: nat): nat
    requires d > 0
  {
    n / d
  }

  function Rem(n: nat, d: nat): nat
    requires d > 0
  {
    n % d
  }

  lemma TimesLaws(a: nat, b: nat, c: nat)
    ensures Times(a + b, c) == Times(a, c) + Times(b, c)
    ensures Times(c, a + b) == Times(c, a) + Times(c, b)
    ensures Times(Times(a, b), c) == Times(a, Times(b, c))
    ensures Times(a, b) == Times(b, a) && Times(1, a) == a && Times(0, a) == 0
  {
    assert a * b * c == a * (b * c);
  }

  lemma TimesUnits(a: nat)
    ensures Times(0, a) == 0 && Times(a, 0) == 0 && Times(1, a) == a && Times(a, 1) == a
  {
  }

  lemma TimesMono(a: nat, b: nat, c: nat)
    requires a <= b
    ensures Times(a, c) <= Times(b, c)
  {
    MulMono(a, b, c);
  }

  lemma DivRem(n: nat, d: nat)
    requires d > 0
    ensures n == Times(Quot(n, d), d) + Rem(n, d) && Rem(n, d) < d
  {
    DivideFacts(n, d);
  }

  /** Quotient and remainder are the only ones there are. */
  lemma DivUnique(n: nat, d: nat, q: nat, r: nat)
    requires r < d && n == Times(q, d) + r
    ensures Quot(n, d) == q && Rem(n, d) == r
  {
    hide Times, Quot, Rem;
    DivRem(n, d);
    var p := Quot(n, d);
    TimesLaws(p, 1, d);
    TimesLaws(q, 1, d);
    TimesLaws(d, 1, d);
    if p < q {
      TimesMono(p + 1, q, d);
    } else if q < p {
      TimesMono(q + 1, p, d);
    }
  }

  lemma TwoDigits(u: nat, t: nat, s: nat, a: nat, b: nat)
    requires s < a && t < b
    ensures Times(Times(u, b) + t, a) + s == Times(u, Times(a, b)) + (Times(t, a) + s)
    ensures Times(t, a) + s < Times(a, b)
  {
    hide Times;
    TimesLaws(Times(u, b), t, a);
    TimesLaws(u, b, a);
    TimesLaws(a, b, a);
    TimesLaws(t, 1, a);
    TimesMono(t + 1, b, a);
    TimesLaws(b, a, a);
    TimesLaws(1, a, a);
    TimesLaws(a, 0, a);
  }

  lemma DivDiv(n: nat, a: nat, b: nat)
    requires a > 0 && b > 0
    ensures Times(a, b) > 0 && Quot(Quot(n, a), b) == Quot(n, Times(a, b))
    ensures Rem(n, Times(a, b)) == Times(Rem(Quot(n, a), b), a) + Rem(n, a)
  {
    hide Times, Quot, Rem;
    DivRem(n, a);
    DivRem(Quot(n, a), b);
    var q := Quot(n, a);
    var u, t, s := Quot(q, b), Rem(q, b), Rem(n, a);
    TwoDigits(u, t, s, a, b);
    DivUnique(n, Times(a, b), u, Times(t, a) + s);
  }

  // ---------------------------------------------------------------------
  // Bit fields
  // ---------------------------------------------------------------------

  /** The n bits of p starting at bit `off`: p / 2^off mod 2^n. */
  function Get(p: nat, off: nat, n: nat): nat {
    Rem(Quot(p, Pow2(off)), Pow2(n))
  }

  /** p with those n bits replaced by v. */
  function Put(p: nat, off: nat, n: nat, v: nat): nat {
    Times(Times(Quot(p, Pow2(off + n)), Pow2(n)) + v, Pow2(off)) + Rem(p, Pow2(off))
  }

  lemma {:induction false} Pow2Sum(a: nat, b: nat)
    ensures Pow2(a + b) == Times(Pow2(a), Pow2(b))
  {
    hide Times;
    if a > 0 {
      Pow2Sum(a - 1, b);
      TimesLaws(Pow2(a - 1), Pow2(a - 1), Pow2(b));
    } else {
      TimesLaws(Pow2(b), 0, 0);
    }
  }

  lemma SplitAt(p: nat, off: nat, n: nat)
    ensures Quot(Quot(p, Pow2(off)), Pow2(n)) == Quot(p, Pow2(off + n))
    ensures Rem(p, Pow2(off + n)) == Times(Get(p, off, n), Pow2(off)) + Rem(p, Pow2(off))
  {
    hide Times, Quot, Rem, Pow2;
    Pow2Sum(off, n);
    DivDiv(p, Pow2(off), Pow2(n));
  }

  /** One more bit on top. */
  lemma GetMore(p: nat, off: nat, n: nat)
    ensures Get(p, off, n + 1) == Get(p, off, n) + Times(Get(p, off + n, 1), Pow2(n))
  {
    hide Times, Quot, Rem, Pow2;
    SplitAt(Quot(p, Pow2(off)), n, 1);
    SplitAt(p, off, n);
  }

  lemma PutParts(p: nat, off: nat, n: nat, v: nat)
    requires v < Pow2(n)
    ensures var k := Put(p, off, n, v);
      && Rem(k, Pow2(off)) == Rem(p, Pow2(off))
      && Quot(k, Pow2(off + n)) == Quot(p, Pow2(off + n))
      && Get(k, off, n) == v
  {
    hide Times, Quot, Rem, Pow2;
    var k, h, lo := Put(p, off, n, v), Quot(p, Pow2(off + n)), Rem(p, Pow2(off));
    DivRem(p, Pow2(off));
    DivUnique(k, Pow2(off), Times(h, Pow2(n)) + v, lo);
    DivUnique(Times(h, Pow2(n)) + v, Pow2(n), h, v);
    SplitAt(k, off, n);
  }

  lemma PutThenGet(p: nat, off: nat, n: nat, v: nat)
    requires v < Pow2(n)
    ensures Get(Put(p, off, n, v), off, n) == v
  {
    PutParts(p, off, n, v);
  }

  /** A field depends only on what lies below any bit above it. */
  lemma GetBelow(p: nat, off: nat, n: nat, top: nat)
    requires off + n <= top
    ensures Get(p, off, n) == Get(Rem(p, Pow2(top)), off, n)
  {
    hide Times, Quot, Rem, Pow2;
    var m, low := top - off - n, Rem(p, Pow2(top));
    SplitAt(p, off + n, m);
    DivRem(p, Pow2(off + n));
    DivUnique(low, Pow2(off + n), Get(p, off + n, m), Rem(p, Pow2(off + n)));
    assert Rem(low, Pow2(off + n)) == Rem(p, Pow2(off + n));
    SplitAt(p, off, n);
    SplitAt(low, off, n);
    DivRem(p, Pow2(off));
    DivRem(low, Pow2(off));
    var both := Rem(p, Pow2(off + n));
    DivUnique(both, Pow2(off), Get(p, off, n), Rem(p, Pow2(off)));
    DivUnique(both, Pow2(off), Get(low, off, n), Rem(low, Pow2(off)));
  }

  /** Replacing one field leaves every other one alone. */
  lemma PutElsewhere(p: nat, off: nat, n: nat, v: nat, off': nat, n': nat)
    requires v < Pow2(n)
    requires off' + n' <= off || off + n <= off'
    ensures Get(Put(p, off, n, v), off', n') == Get(p, off', n')
  {
    hide Times, Quot, Rem, Pow2, Put;
    var k := Put(p, off, n, v);
    PutParts(p, off, n, v);
    if off' + n' <= off {
      GetBelow(p, off', n', off);
      GetBelow(k, off', n', off);
    } else {
      SplitAt(p, off + n, off' - off - n);
      SplitAt(k, off + n, off' - off - n);
    }
  }

  /** A number is below c * m exactly when its quotient by c is below m. */
  lemma BelowTop(p: nat, c: nat, m: nat)
    requires c > 0
    ensures p < Times(c, m) <==> Quot(p, c) < m
  {
    hide Times, Quot, Rem;
    DivRem(p, c);
    var h := Quot(p, c);
    TimesLaws(h, 1, c);
    TimesLaws(1, c, c);
    TimesLaws(c, m, c);
    TimesLaws(m, c, c);
    if h < m {
      TimesMono(h + 1, m, c);
    } else {
      TimesMono(m, h, c);
    }
  }

  lemma PutBound(p: nat, off: nat, n: nat, v: nat, top: nat)
    requires v < Pow2(n) && off + n <= top && p < Pow2(top)
    ensures Put(p, off, n, v) < Pow2(top)
  {
    hide Times, Quot, Rem, Pow2, Put;
    PutParts(p, off, n, v);
    Pow2Sum(off + n, top - off - n);
    BelowTop(p, Pow2(off + n), Pow2(top - off - n));
    BelowTop(Put(p, off, n, v), Pow2(off + n), Pow2(top - off - n));
  }

  // ---------------------------------------------------------------------
  // Byte strings
  // ---------------------------------------------------------------------

  lemma {:induction false} Pow256IsPow2(n: nat)
    ensures Pow256(n) == Pow2(8 * n)
  {
    if n > 0 {
      Pow256IsPow2(n - 1);
      Pow2Sum(8, 8 * (n - 1));
      assert Pow2(8) == 256;
    }
  }

  function ToBytes(v: nat, n: nat): (s: seq<byte>)
    ensures |s| == n
  {
    if n == 0 then [] else [v % 256] + ToBytes(v / 256, n - 1)
  }

  lemma {:induction false} LittleHead(s: seq<byte>)
    requires s != []
    ensures Little(s) == s[0] + 256 * Little(s[1..])
  {
    var n := |s| - 1;
    if n == 0 {
      assert Pow256(0) == 1 && s[..0] == [] && s[1..] == [];
    } else {
      LittleHead(s[..n]);
      assert s[..n][1..] == s[1..][..n - 1];
      assert s[n] * Pow256(n) == 256 * (s[n] * Pow256(n - 1));
    }
  }

  lemma {:induction false} BytesRoundTrip(v: nat, n: nat)
    requires v < Pow2(8 * n)
    ensures Little(ToBytes(v, n)) == v
  {
    if n > 0 {
      var s := ToBytes(v, n);
      Pow2Sum(8, 8 * (n - 1));
      assert Pow2(8) == 256;
      BytesRoundTrip(v / 256, n - 1);
      LittleHead(s);
      assert s[1..] == ToBytes(v / 256, n - 1);
    }
  }

  /** Bit i of a byte string. */
  function Bit(s: seq<byte>, i: nat): nat {
    if i / 8 < |s| then Quot(s[i / 8], Pow2(i % 8)) % 2 else 0
  }

  lemma ByteBit(b: byte, m: nat, i: nat)
    requires i < 8
    ensures Get(b + 256 * m, i, 1) == Quot(b, Pow2(i)) % 2
  {
    var p := b + 256 * m;
    assert Pow2(8) == 256 && Pow2(1) == 2;
    GetBelow(p, i, 1, 8);
    DivUnique(p, 256, m, b);
  }

  lemma {:induction false} BitIsGet(s: seq<byte>, i: nat)
    ensures Bit(s, i) == Get(Little(s), i, 1)
    decreases |s|
  {
    assert Pow2(1) == 2 && Pow2(8) == 256;
    if s == [] {
      DivUnique(0, Pow2(i), 0, 0);
      DivUnique(0, 2, 0, 0);
    } else {
      LittleHead(s);
      var rest := s[1..];
      if i < 8 {
        ByteBit(s[0], Little(rest), i);
      } else {
        BitIsGet(rest, i - 8);
        SplitAt(Little(s), 8, i - 8);
        DivUnique(Little(s), 256, Little(rest), s[0]);
        assert i / 8 == (i - 8) / 8 + 1 && i % 8 == (i - 8) % 8;
      }
    }
  }
}
