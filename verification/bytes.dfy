/** Bytes, 64-bit little-endian integers and runs of zero bytes. */
module Bytes {

  type Byte = b: int | 0 <= b < 256

  const LIMIT64: nat := 0x1_0000_0000_0000_0000

  type U64 = n: int | 0 <= n < LIMIT64

  /** The payload of one log record. */
  type Record = seq<Byte>

  function Pow256(k: nat): (p: nat)
    ensures p > 0
  {
    if k == 0 then 1 else 256 * Pow256(k - 1)
  }

  /** The low `width` bytes of `n`, least significant first. */
  function ToLe(n: nat, width: nat): (s: seq<Byte>)
    ensures |s| == width
  {
    if width == 0 then [] else [n % 256] + ToLe(n / 256, width - 1)
  }

  function FromLe(s: seq<Byte>): nat {
    if s == [] then 0 else s[0] + 256 * FromLe(s[1..])
  }

  lemma {:induction false} FromLeBound(s: seq<Byte>)
    ensures FromLe(s) < Pow256(|s|)
  {
    if s != [] { FromLeBound(s[1..]); }
  }

  lemma {:induction false} LeRoundTrip(n: nat, width: nat)
    requires n < Pow256(width)
    ensures FromLe(ToLe(n, width)) == n
  {
    if width > 0 {
      LeRoundTrip(n / 256, width - 1);
      assert ToLe(n, width)[1..] == ToLe(n / 256, width - 1);
    }
  }

  lemma {:induction false} LeOnto(s: seq<Byte>)
    ensures ToLe(FromLe(s), |s|) == s
  {
    if s != [] {
      LeOnto(s[1..]);
      assert FromLe(s) % 256 == s[0] && FromLe(s) / 256 == FromLe(s[1..]);
      assert s == [s[0]] + s[1..];
    }
  }

  lemma Pow256Of8()
    ensures Pow256(8) == LIMIT64
  {
    assert Pow256(2) == 0x1_0000;
    assert Pow256(4) == 0x1_0000_0000;
    assert Pow256(6) == 0x1_0000_0000_0000;
  }

  function EncodeU64(n: nat): (s: seq<Byte>)
    ensures |s| == 8
  {
    ToLe(n, 8)
  }

  function DecodeU64(s: seq<Byte>): U64
    requires |s| == 8
  {
    FromLeBound(s);
    Pow256Of8();
    FromLe(s)
  }

  /** The eight bytes of a length or an offset, the least significant one first. */
  lemma LittleEndian(n: nat)
    requires n < LIMIT64
    ensures EncodeU64(n) ==
            [n % 0x100, n / 0x100 % 0x100, n / 0x1_0000 % 0x100, n / 0x100_0000 % 0x100,
             n / 0x1_0000_0000 % 0x100, n / 0x100_0000_0000 % 0x100, n / 0x1_0000_0000_0000 % 0x100,
             n / 0x100_0000_0000_0000 % 0x100]
  {
    var high := n / 0x1_0000_0000;
    ToLeFour(n, 4);
    ToLeFour(high, 0);
    Shifted(n);
    assert ToLe(high / 0x1_0000_0000, 0) == [];
  }

  /** The first four bytes of a number, and the number that is left. */
  lemma ToLeFour(n: nat, width: nat)
    ensures ToLe(n, width + 4) ==
            [n % 0x100, n / 0x100 % 0x100, n / 0x1_0000 % 0x100, n / 0x100_0000 % 0x100]
            + ToLe(n / 0x1_0000_0000, width)
  {
    ToLeTwice(n, width + 2);
    ToLeTwice(n / 0x1_0000, width);
    ShiftedTwo(n);
  }

  lemma ShiftedTwo(n: nat)
    ensures n / 0x1_0000 / 0x100 == n / 0x100_0000 && n / 0x1_0000 / 0x1_0000 == n / 0x1_0000_0000
  {
  }

  lemma ToLeTwice(n: nat, width: nat)
    ensures ToLe(n, width + 2) == [n % 0x100, n / 0x100 % 0x100] + ToLe(n / 0x1_0000, width)
  {
    assert ToLe(n, width + 2) == [n % 0x100] + ToLe(n / 0x100, width + 1);
    assert n / 0x100 / 0x100 == n / 0x1_0000;
  }

  lemma Shifted(n: nat)
    ensures n / 0x1_0000_0000 / 0x100 == n / 0x100_0000_0000
    ensures n / 0x1_0000_0000 / 0x1_0000 == n / 0x1_0000_0000_0000
    ensures n / 0x1_0000_0000 / 0x100_0000 == n / 0x100_0000_0000_0000
  {
  }

  /** And back: the number is the sum of its bytes, each with its own weight. */
  lemma LittleEndianValue(b: seq<Byte>)
    requires |b| == 8
    ensures DecodeU64(b) ==
            b[0] as int + 0x100 * (b[1] as int) + 0x1_0000 * (b[2] as int) + 0x100_0000 * (b[3] as int)
            + 0x1_0000_0000 * (b[4] as int) + 0x100_0000_0000 * (b[5] as int)
            + 0x1_0000_0000_0000 * (b[6] as int) + 0x100_0000_0000_0000 * (b[7] as int)
  {
    FromLeTwice(b);
    FromLeTwice(b[2..]);
    FromLeTwice(b[4..]);
    FromLeTwice(b[6..]);
    assert b[2..][2..] == b[4..] && b[4..][2..] == b[6..] && b[6..][2..] == [];
  }

  lemma FromLeTwice(b: seq<Byte>)
    requires |b| >= 2
    ensures FromLe(b) == b[0] as int + 0x100 * (b[1] as int) + 0x1_0000 * FromLe(b[2..])
  {
    assert b[1..][1..] == b[2..];
  }

  /** A u64 written with `to_le_bytes` is read back by `from_le_bytes`. */
  lemma DecodeEncode(n: nat)
    requires n < LIMIT64
    ensures DecodeU64(EncodeU64(n)) == n
  {
    Pow256Of8();
    LeRoundTrip(n, 8);
  }

  lemma EncodeDecode(s: seq<Byte>)
    requires |s| == 8
    ensures EncodeU64(DecodeU64(s)) == s
  {
    LeOnto(s);
  }

  function Zeros(n: nat): (z: seq<Byte>)
    ensures |z| == n
    ensures forall i :: 0 <= i < n ==> z[i] == 0
  {
    seq(n, i => 0)
  }

  lemma {:induction false} FromLeZeros(n: nat)
    ensures FromLe(Zeros(n)) == 0
  {
    if n > 0 {
      assert Zeros(n)[1..] == Zeros(n - 1);
      FromLeZeros(n - 1);
    }
  }

  /** Eight zero bytes read as the number zero, and zero is written as eight zero bytes. */
  lemma ZeroWord()
    ensures DecodeU64(Zeros(8)) == 0
    ensures EncodeU64(0) == Zeros(8)
  {
    FromLeZeros(8);
    LeOnto(Zeros(8));
  }
}
