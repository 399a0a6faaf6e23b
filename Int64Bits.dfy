/** Unpacking a 64-bit signed integer into booleans, one per bit
    (Collections/Int64Extensions.cs). */
module Int64Bits {
  import opened Common

  /** `Size`: the number of bits in a `long`. */
  const Size: nat := 64

  function Pow2(k: nat): (r: nat)
    ensures r >= 1
  {
    if k == 0 then 1 else 2 * Pow2(k - 1)
  }

  lemma {:induction false} Pow2Add(a: nat, b: nat)
    ensures Pow2(a + b) == Pow2(a) * Pow2(b)
  {
    if b > 0 {
      Pow2Add(a, b - 1);
      assert Pow2(a + b) == 2 * Pow2(a + b - 1);
    }
  }

  lemma Pow2Of16()
    ensures Pow2(16) == 0x1_0000
  {
    assert Pow2(4) == 16 by {
      assert Pow2(1) == 2;
      assert Pow2(2) == 4;
      assert Pow2(3) == 8;
    }
    assert Pow2(8) == 0x100 by { Pow2Add(4, 4); }
    Pow2Add(8, 8);
  }

  lemma Pow2Of64()
    ensures Pow2(64) == TwoTo64 && Pow2(63) == TwoTo64 / 2
  {
    assert Pow2(32) == 0x1_0000_0000 by { Pow2Of16(); Pow2Add(16, 16); }
    assert Pow2(64) == TwoTo64 by { Pow2Add(32, 32); }
    assert Pow2(64) == Pow2(63) * 2 by { Pow2Add(63, 1); }
  }

  /** The 64-bit two's-complement pattern of `value`, read as unsigned. */
  function Pattern(value: Int64): (u: nat)
    ensures u < TwoTo64 && (u - value) % TwoTo64 == 0
  {
    if value < 0 then value + TwoTo64 else value
  }

  /** The signed `long` whose two's-complement pattern is `u`. */
  function Signed(u: nat): Int64
    requires u < TwoTo64
  {
    if u >= TwoTo64 / 2 then u - TwoTo64 else u
  }

  /** Bit `k` of `u`, which is what `(value & (1L << k)) != 0` tests on the
      pattern of `value`. */
  function Bit(u: nat, k: nat): bool
  {
    if k == 0 then u % 2 == 1 else Bit(u / 2, k - 1)
  }

  /** The low `n` bits of `u`, least significant first. */
  function Bits(u: nat, n: nat): (bs: seq<bool>)
    ensures |bs| == n
  {
    if n == 0 then [] else [u % 2 == 1] + Bits(u / 2, n - 1)
  }

  /** Reads booleans back as the number whose bit i is `bs[i]`. */
  function FromBits(bs: seq<bool>): nat
  {
    if bs == [] then 0 else (if bs[0] then 1 else 0) + 2 * FromBits(bs[1..])
  }

  lemma {:induction false} BitsAt(u: nat, n: nat, i: nat)
    requires i < n
    ensures Bits(u, n)[i] == Bit(u, i)
  {
    if i > 0 {
      BitsAt(u / 2, n - 1, i - 1);
    }
  }

  lemma {:induction false} FromBitsOfBits(u: nat, n: nat)
    requires u < Pow2(n)
    ensures FromBits(Bits(u, n)) == u
  {
    if n > 0 {
      FromBitsOfBits(u / 2, n - 1);
      assert Bits(u, n)[1..] == Bits(u / 2, n - 1);
    }
  }

  /** Below 2^(k+1), bit k is set exactly from 2^k on. */
  lemma {:induction false} TopBit(u: nat, k: nat)
    requires u < Pow2(k + 1)
    ensures Bit(u, k) <==> u >= Pow2(k)
  {
    if k > 0 {
      TopBit(u / 2, k - 1);
    }
  }

  /** What `Unpack` writes into the first 64 elements of its destination. */
  function Unpacked(value: Int64): (bs: seq<bool>)
    ensures |bs| == Size
  {
    Bits(Pattern(value), Size)
  }

  /** Element i of the unpacked value is the bit that
      `(value & (1L << i)) != 0` tests. */
  lemma UnpackedAt(value: Int64, i: nat)
    requires i < Size
    ensures Unpacked(value)[i] == Bit(Pattern(value), i)
  {
    BitsAt(Pattern(value), Size, i);
  }

  /** Round trip: summing bit i times 2^i and reading the 64-bit result as
      signed gives the value back. */
  lemma UnpackRoundTrip(value: Int64)
    ensures FromBits(Unpacked(value)) == Pattern(value)
    ensures Signed(FromBits(Unpacked(value))) == value
  {
    Pow2Of64();
    FromBitsOfBits(Pattern(value), Size);
  }

  /** The last element is the sign bit. */
  lemma UnpackedSign(value: Int64)
    ensures Unpacked(value)[63] <==> value < 0
  {
    Pow2Of64();
    UnpackedAt(value, 63);
    TopBit(Pattern(value), 63);
  }

  /** Unpacking is injective: different values give different booleans. */
  lemma UnpackInjective(a: Int64, b: Int64)
    requires Unpacked(a) == Unpacked(b)
    ensures a == b
  {
    UnpackRoundTrip(a);
    UnpackRoundTrip(b);
  }

  /** `Unpack(value, destination)`: throws when the destination is shorter
      than 64 and then writes nothing; otherwise writes bit i to element i
      for i < 64 and leaves the rest alone. */
  method UnpackInto(value: Int64, destination: array<bool>) returns (r: Outcome)
    modifies destination
    ensures r.Fail? <==> destination.Length < Size
    ensures r.Fail? ==> r.error == Argument && destination[..] == old(destination[..])
    ensures r.Pass? ==> destination[..Size] == Unpacked(value)
    ensures r.Pass? ==> destination[Size..] == old(destination[Size..])
  {
    if destination.Length < Size {
      return Fail(Argument);
    }
    var u := Pattern(value);
    for index := 0 to Size
      invariant forall j :: 0 <= j < index ==> destination[j] == Bit(u, j)
      invariant destination[Size..] == old(destination[Size..])
    {
      destination[index] := Bit(u, index);
    }
    forall j | 0 <= j < Size
      ensures destination[..Size][j] == Unpacked(value)[j]
    {
      UnpackedAt(value, j);
    }
    return Pass;
  }

  /** `Unpack(value)`: a fresh array of exactly 64 booleans. */
  method Unpack(value: Int64) returns (ret: array<bool>)
    ensures fresh(ret) && ret.Length == Size
    ensures ret[..] == Unpacked(value)
  {
    ret := new bool[Size];
    var outcome := UnpackInto(value, ret);
    assert ret[..] == ret[..Size];
  }
}
