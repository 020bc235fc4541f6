/** Bytes as bits, and little-endian words of two and four bytes. */
module LittleEndian {
  import opened Arithmetic

  type byte = b: int | 0 <= b < 256

  function Word(s: seq<byte>): (v: nat)
    requires |s| == 4
    ensures v <= UINT32_MAX
  {
    s[0] as int + 0x100 * (s[1] as int) + 0x1_0000 * (s[2] as int) + 0x100_0000 * (s[3] as int)
  }

  function WordBytes(v: nat): (s: seq<byte>)
    requires v <= UINT32_MAX
    ensures |s| == 4 && Word(s) == v
  {
    var v1, v2, v3 := v / 0x100, v / 0x100 / 0x100, v / 0x100 / 0x100 / 0x100;
    [v % 0x100, v1 % 0x100, v2 % 0x100, v3]
  }

  /** A two-byte word. */
  function Le16(lo: byte, hi: byte): nat { (lo as int) + 256 * (hi as int) }

  function Le16Bytes(v: nat): (s: seq<byte>)
    requires v < 0x1_0000
    ensures |s| == 2 && Le16(s[0], s[1]) == v
  {
    [v % 0x100, v / 0x100]
  }

  /** A zero or all-ones word has only zero or all-ones bytes. */
  lemma WordEnds(s: seq<byte>)
    requires |s| == 4
    ensures Word(s) == UINT32_MAX <==> s == [0xFF, 0xFF, 0xFF, 0xFF]
    ensures Word(s) == 0 <==> s == [0, 0, 0, 0]
  {}

  function Pow2(n: nat): nat { if n == 0 then 1 else 2 * Pow2(n - 1) }

  /** The number with the given bits, least significant first. */
  function Value(bits: seq<bool>): nat
  {
    if bits == [] then 0 else (if bits[0] then 1 else 0) + 2 * Value(bits[1..])
  }

  /** The lowest `n` bits of a number. */
  function Bits(v: nat, n: nat): (bits: seq<bool>)
    ensures |bits| == n
  {
    if n == 0 then [] else [v % 2 == 1] + Bits(v / 2, n - 1)
  }

  /** The largest number of `n` bits is all ones. */
  lemma {:induction false} ValueEnds(bits: seq<bool>)
    ensures Value(bits) < Pow2(|bits|)
    ensures Value(bits) == Pow2(|bits|) - 1 ==> forall i | 0 <= i < |bits| :: bits[i]
  {
    if bits == [] {
    } else {
      ValueEnds(bits[1..]);
      forall i | 0 <= i < |bits| && Value(bits) == Pow2(|bits|) - 1 ensures bits[i] {
        assert i > 0 ==> bits[1..][i - 1] == bits[i];
      }
    }
  }

  /** Without a bit set the number is zero. */
  lemma {:induction false} NoBits(v: nat, n: nat)
    requires v < Pow2(n) && forall i | 0 <= i < n :: !Bits(v, n)[i]
    ensures v == 0
  {
    if n == 0 {
    } else {
      assert !Bits(v, n)[0];
      var rest := Bits(v / 2, n - 1);
      forall i | 0 <= i < n - 1 ensures !rest[i] {
        assert Bits(v, n)[i + 1] == rest[i];
      }
      NoBits(v / 2, n - 1);
    }
  }

  lemma {:induction false} ValueJoin(a: seq<bool>, b: seq<bool>)
    ensures Value(a + b) == Value(a) + Pow2(|a|) * Value(b)
  {
    if a == [] {
      assert a + b == b;
    } else {
      ValueJoin(a[1..], b);
      assert (a + b)[0] == a[0] && (a + b)[1..] == a[1..] + b;
      DoubleProduct(Pow2(|a| - 1), Value(b));
    }
  }

  lemma DoubleProduct(a: nat, b: nat)
    ensures 2 * (a * b) == (2 * a) * b
  {}
}
