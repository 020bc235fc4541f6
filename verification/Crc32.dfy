/** The CRC32 of a four-byte word, `crc32_le(UINT32_MAX, word, 4)`: the register starts at zero
    and every byte is shifted out through the reflected polynomial 0xEDB88320. Registers are
    32 bits, least significant first. */
module Crc32 {
  import opened LittleEndian

  type Register = r: seq<bool> | |r| == 32 witness seq(32, _ => false)

  /** The bits of 0xEDB88320, least significant first. */
  const POLY: Register := [
    false, false, false, false, false, true, false, false,
    true, true, false, false, false, false, false, true,
    false, false, false, true, true, true, false, true,
    true, false, true, true, false, true, true, true]

  /** Shift right by one; a bit falling out is fed back. */
  function BitStep(r: Register): (next: Register)
  {
    seq(32, i requires 0 <= i < 32 => (i < 31 && r[i + 1]) != (r[0] && POLY[i]))
  }

  function Steps(r: Register, k: nat): Register
  {
    if k == 0 then r else BitStep(Steps(r, k - 1))
  }

  /** Exclusive or of a byte into the low end. */
  function Mix(r: Register, b: byte): Register
  {
    seq(32, i requires 0 <= i < 32 => r[i] != (i < 8 && Bits(b, 8)[i]))
  }

  function Feed(r: Register, b: byte): Register { Steps(Mix(r, b), 8) }

  function Zero(): Register { seq(32, _ => false) }

  function Run(s: seq<byte>): Register
  {
    if s == [] then Zero() else Feed(Run(s[..|s| - 1]), s[|s| - 1])
  }

  /** The four bytes of the complemented register. */
  function Crc(s: seq<byte>): (c: seq<byte>)
    requires |s| == 4
    ensures |c| == 4
  {
    var r := Run(s);
    seq(4, k requires 0 <= k < 4 => Octet(r, k))
  }

  function Octet(r: Register, k: nat): byte
    requires k < 4
  {
    var bits := seq(8, i requires 0 <= i < 8 => !r[8 * k + i]);
    ValueEnds(bits);
    assert Pow2(8) == 256;
    Value(bits)
  }

  /** The upper `n` bits are clear. */
  predicate TopClear(r: Register, n: nat)
  {
    forall i | 0 <= i < 32 && i >= 32 - n :: !r[i]
  }

  /** The polynomial has its top bit set: a step that leaves the top bit clear fed nothing back. */
  lemma StepBack(r: Register)
    requires !BitStep(r)[31]
    ensures !r[0] && forall i | 0 <= i < 31 :: r[i + 1] == BitStep(r)[i]
  {
    assert POLY[31];
    forall i | 0 <= i < 31 ensures r[i + 1] == BitStep(r)[i] {
    }
  }

  /** Undoing `k` steps that left the upper `k` bits clear. */
  lemma {:induction false} StepsBack(r: Register, k: nat)
    requires k <= 8 && TopClear(Steps(r, k), k)
    ensures forall i | 0 <= i < k :: !r[i]
    ensures forall i | 0 <= i < 32 - k :: r[i + k] == Steps(r, k)[i]
  {
    if k == 0 {
    } else {
      var before := Steps(r, k - 1);
      StepBack(before);
      assert TopClear(before, k - 1) by {
        forall i | 0 <= i < 32 && i >= 32 - (k - 1) ensures !before[i] {
          assert before[(i - 1) + 1] == BitStep(before)[i - 1];
        }
      }
      StepsBack(r, k - 1);
      assert r[0 + (k - 1)] == before[0];
      forall i | 0 <= i < 32 - k ensures r[i + k] == Steps(r, k)[i] {
        assert r[(i + 1) + (k - 1)] == before[i + 1];
      }
    }
  }

  /** Only zero bytes leave the register's upper bits clear, and they leave all of it clear. */
  lemma {:induction false} ClearRun(s: seq<byte>)
    requires |s| <= 4 && TopClear(Run(s), 8 * |s|)
    ensures forall b | b in s :: b == 0
    ensures Run(s) == Zero()
    decreases |s|
  {
    if s == [] {
    } else {
      var init, b := s[..|s| - 1], s[|s| - 1];
      var r, v := Run(init), Run(s);
      var m := Mix(r, b);
      assert TopClear(v, 8);
      StepsBack(m, 8);
      assert TopClear(r, 8 * |init|) by {
        forall i | 0 <= i < 32 && i >= 32 - 8 * |init| ensures !r[i] {
          assert m[i] == r[i];
          assert m[(i - 8) + 8] == v[i - 8];
        }
      }
      ClearRun(init);
      forall i | 0 <= i < 8 ensures !Bits(b, 8)[i] {
        assert !m[i] && !r[i];
      }
      assert Pow2(8) == 256;
      NoBits(b, 8);
      forall i | 0 <= i < 32 ensures !v[i] {
        if i < 24 {
          assert m[i + 8] == v[i] && !r[i + 8];
        }
      }
      assert s == init + [b];
    }
  }

  /** Only the sequence number zero has the CRC that erased flash shows. */
  lemma CrcOfErased(s: seq<byte>)
    requires |s| == 4 && Crc(s) == [0xFF, 0xFF, 0xFF, 0xFF]
    ensures s == [0, 0, 0, 0]
  {
    var r := Run(s);
    forall i | 0 <= i < 32 ensures !r[i] {
      assert Octet(r, i / 8) == Crc(s)[i / 8] == 0xFF;
      OctetOnes(r, i / 8, i % 8);
    }
    ClearRun(s);
    assert s[0] in s && s[1] in s && s[2] in s && s[3] in s;
  }

  lemma OctetOnes(r: Register, k: nat, i: nat)
    requires k < 4 && i < 8 && Octet(r, k) == 0xFF
    ensures !r[8 * k + i]
  {
    var bits := seq(8, i requires 0 <= i < 8 => !r[8 * k + i]);
    ValueEnds(bits);
    assert Pow2(8) == 256;
    assert bits[i];
  }
}
