/** Little-endian values of byte strings. */
module LittleEndian {
  import opened Machine

  function Pow256(n: nat): (p: nat)
    ensures p >= 1
  {
    if n == 0 then 1 else 256 * Pow256(n - 1)
  }

  /** Little-endian value of a byte string. */
  function Little(s: seq<byte>): nat {
    if s == [] then 0 else Little(s[..|s| - 1]) + s[|s| - 1] * Pow256(|s| - 1)
  }

  lemma {:induction false} LittleBound(s: seq<byte>)
    ensures Little(s) < Pow256(|s|)
  {
    if s != [] {
      LittleBound(s[..|s| - 1]);
      TopDigit(s[|s| - 1], Pow256(|s| - 1));
    }
  }

  lemma TopDigit(b: byte, p: nat)
    ensures b * p <= 255 * p
  {
  }

  lemma LittleFitsU32(s: seq<byte>)
    requires |s| <= 4
    ensures Little(s) < 0x1_0000_0000
  {
    LittleBound(s);
    assert Pow256(0) == 1 && Pow256(1) == 256 && Pow256(2) == 0x1_0000 && Pow256(3) == 0x100_0000 && Pow256(4) == 0x1_0000_0000;
  }
}
