/** Which shard an address belongs to. */
module ShardCoordinator {
  import opened Numbers
  import opened Hex

  /** `ceil(log2(n))`: the least exponent whose power of two reaches `n`. */
  function CeilLog2(n: nat): (e: nat)
    requires n >= 1
    ensures n <= Pow(2, e)
    ensures e > 0 ==> Pow(2, e - 1) < n
  {
    if n == 1 then 0
    else
      var e := CeilLog2((n + 1) / 2);
      e + 1
  }

  /**
   * Both masks: the bits a shard number needs, and one bit fewer. Go leaves open what a negative or an
   * infinite exponent turns into; `unspecified` stands for whatever masks that gives.
   */
  function CalculateMasks(numberOfShards: uint32, unspecified: (nat, nat)): (nat, nat) {
    if numberOfShards == 0 then unspecified
    else
      var n := CeilLog2(numberOfShards);
      (Pow(2, n) - 1, if n == 0 then unspecified.1 else Pow(2, n - 1) - 1)
  }

  function BytesNeed(numberOfShards: uint32): nat {
    if numberOfShards <= 256 then 1
    else if numberOfShards <= 65536 then 2
    else if numberOfShards <= 16777216 then 3
    else 4
  }

  /** The trailing bytes of an address the shard is computed from. */
  function BytesNeeded(numberOfShards: uint32, address: seq<byte>): (needed: seq<byte>)
    ensures |needed| <= BytesNeed(numberOfShards)
  {
    if |address| > BytesNeed(numberOfShards) then address[|address| - BytesNeed(numberOfShards)..] else address
  }

  /** The masks applied; without any shard the comparison wraps around and never asks for the second. */
  function Masked(numberOfShards: uint32, masks: (nat, nat), addr: nat): nat {
    var shard := BitAnd(addr, masks.0);
    if shard > (numberOfShards - 1) % UINT32_BOUND then BitAnd(addr, masks.1) else shard
  }

  /** The shard a number stands for: its low bits, one bit fewer when they name no shard. */
  function ShardOf(numberOfShards: uint32, x: nat): (shard: nat)
    requires numberOfShards >= 1
    ensures shard < numberOfShards
  {
    var n := CeilLog2(numberOfShards);
    if LowBits(x, n) < numberOfShards || n == 0 then LowBits(x, n) else LowBits(x, n - 1)
  }

  // ---------------------------------------------------------------- the masks take low bits

  lemma MaskedCases(numberOfShards: uint32, masks: (nat, nat), addr: nat)
    requires numberOfShards >= 1
    ensures Masked(numberOfShards, masks, addr) ==
      if BitAnd(addr, masks.0) < numberOfShards then BitAnd(addr, masks.0) else BitAnd(addr, masks.1)
  {
    assert (numberOfShards - 1) % UINT32_BOUND == numberOfShards - 1;
  }

  lemma MasksTakeLowBits(numberOfShards: uint32, unspecified: (nat, nat), addr: nat)
    requires numberOfShards >= 1
    ensures Masked(numberOfShards, CalculateMasks(numberOfShards, unspecified), addr) == ShardOf(numberOfShards, addr)
  {
    var n := CeilLog2(numberOfShards);
    MaskedCases(numberOfShards, CalculateMasks(numberOfShards, unspecified), addr);
    BitAndMask(addr, n);
    if n > 0 {
      BitAndMask(addr, n - 1);
    }
  }

  // ---------------------------------------------------------------- the bytes read are enough

  lemma EnoughBytes(numberOfShards: uint32)
    ensures numberOfShards <= Pow(256, BytesNeed(numberOfShards))
  {
    assert Pow(256, 1) == 256 * Pow(256, 0);
    assert Pow(256, 2) == 256 * Pow(256, 1);
    assert Pow(256, 3) == 256 * Pow(256, 2);
    assert Pow(256, 4) == 256 * Pow(256, 3);
  }

  /** At most four bytes are read, so the 32-bit accumulator never wraps around. */
  lemma AddressFitsWord(bytes: seq<byte>)
    requires |bytes| <= 4
    ensures FromBytes(bytes) < UINT32_BOUND
  {
    FromBytesBound(bytes);
    PowMonotone(256, |bytes|, 4);
    assert Pow(256, 4) == UINT32_BOUND by {
      assert Pow(256, 2) == 256 * 256;
      PowAdd(256, 2, 2);
    }
  }

  /** The bytes read are the whole address, taken modulo as many bytes. */
  lemma BytesNeededValue(numberOfShards: uint32, address: seq<byte>)
    ensures FromBytes(BytesNeeded(numberOfShards, address)) == FromBytes(address) % Pow(256, BytesNeed(numberOfShards))
  {
    var k, needed := BytesNeed(numberOfShards), BytesNeeded(numberOfShards, address);
    FromBytesBound(needed);
    if |address| > k {
      var rest := address[..|address| - k];
      assert address == rest + needed;
      FromBytesAppend(rest, needed);
      DivModUnique(FromBytes(address), Pow(256, k), FromBytes(rest), FromBytes(needed));
    } else {
      PowMonotone(256, |address|, k);
      DivModUnique(FromBytes(address), Pow(256, k), 0, FromBytes(address));
    }
  }

  lemma {:induction false} BytesAreBits(k: nat)
    ensures Pow(256, k) == Pow(2, 8 * k)
  {
    if k > 0 {
      BytesAreBits(k - 1);
      PowAdd(2, 8, 8 * (k - 1));
      assert Pow(2, 8) == 256;
    }
  }

  lemma LowBitsOfMod(x: nat, n: nat, m: nat)
    requires n <= m
    ensures LowBits(x % Pow(2, m), n) == LowBits(x, n)
  {
    PowAdd(2, n, m - n);
    LowBitsIsMod(x, n);
    LowBitsIsMod(x % Pow(2, m), n);
    ModMultiple(x, Pow(2, n), Pow(2, m - n), Pow(2, m));
  }

  /** Bytes that can count the shards hold every bit of the shard. */
  lemma ShardOfTrailing(numberOfShards: uint32, x: nat, k: nat)
    requires 1 <= numberOfShards <= Pow(256, k)
    ensures ShardOf(numberOfShards, x % Pow(256, k)) == ShardOf(numberOfShards, x)
  {
    BytesAreBits(k);
    var n := CeilLog2(numberOfShards);
    if n > 8 * k {
      PowMonotone(2, 8 * k, n - 1);
      assert false;
    }
    LowBitsOfMod(x, n, 8 * k);
    if n > 0 {
      LowBitsOfMod(x, n - 1, 8 * k);
    }
  }

  /** However many bytes are read, the result is the shard of the whole address as one number. */
  lemma ShardOfAddress(numberOfShards: uint32, address: seq<byte>)
    requires numberOfShards >= 1
    ensures ShardOf(numberOfShards, FromBytes(BytesNeeded(numberOfShards, address))) == ShardOf(numberOfShards, FromBytes(address))
  {
    BytesNeededValue(numberOfShards, address);
    EnoughBytes(numberOfShards);
    ShardOfTrailing(numberOfShards, FromBytes(address), BytesNeed(numberOfShards));
  }

  lemma NextByte(bytes: seq<byte>, i: nat)
    requires i < |bytes| <= 4
    ensures (FromBytes(bytes[..i]) * 256 + bytes[i]) % UINT32_BOUND == FromBytes(bytes[..i + 1])
  {
    assert bytes[..i + 1][..i] == bytes[..i];
    AddressFitsWord(bytes[..i + 1]);
  }

  /** The loop over the bytes read, in 32 bits. */
  method AddressNumber(buffNeeded: seq<byte>) returns (addr: nat)
    requires |buffNeeded| <= 4
    ensures addr == FromBytes(buffNeeded)
  {
    addr := 0;
    for i := 0 to |buffNeeded|
      invariant addr == FromBytes(buffNeeded[..i])
    {
      NextByte(buffNeeded, i);
      addr := (addr * 256 + buffNeeded[i]) % UINT32_BOUND;
    }
    assert buffNeeded[..|buffNeeded|] == buffNeeded;
  }

  /** What the masks make of the bytes read. */
  lemma MaskedAddress(numberOfShards: uint32, masks: (nat, nat), address: seq<byte>)
    requires masks == CalculateMasks(numberOfShards, masks)
    ensures var addr := FromBytes(BytesNeeded(numberOfShards, address));
      Masked(numberOfShards, masks, addr) ==
      if numberOfShards == 0 then BitAnd(addr, masks.0) else ShardOf(numberOfShards, FromBytes(address))
  {
    var addr := FromBytes(BytesNeeded(numberOfShards, address));
    if numberOfShards == 0 {
      AddressFitsWord(BytesNeeded(numberOfShards, address));
      BitAndBound(addr, masks.0);
    } else {
      MasksTakeLowBits(numberOfShards, masks, addr);
      ShardOfAddress(numberOfShards, address);
    }
  }

  class MultiShardCoordinator {
    const numberOfShards: uint32
    const maskHigh: nat
    const maskLow: nat
    const isSmartContractOnMetachain: (seq<byte>, seq<byte>) -> bool  // taken as given

    predicate Valid() {
      (maskHigh, maskLow) == CalculateMasks(numberOfShards, (maskHigh, maskLow))
    }

    constructor (numberOfShards: uint32, unspecified: (nat, nat), isSmartContractOnMetachain: (seq<byte>, seq<byte>) -> bool)
      ensures Valid() && this.numberOfShards == numberOfShards
      ensures this.isSmartContractOnMetachain == isSmartContractOnMetachain
    {
      this.numberOfShards := numberOfShards;
      this.isSmartContractOnMetachain := isSmartContractOnMetachain;
      var masks := CalculateMasks(numberOfShards, unspecified);
      maskHigh, maskLow := masks.0, masks.1;
    }

    /** The metachain, or the shard of the whole address; without any shard just what the first mask leaves. */
    method ComputeIdFromBytes(address: seq<byte>) returns (shard: nat)
      requires Valid()
      ensures var needed := BytesNeeded(numberOfShards, address);
        if isSmartContractOnMetachain(needed, address) then shard == METACHAIN_SHARD_ID
        else if numberOfShards == 0 then shard == BitAnd(FromBytes(needed), maskHigh)
        else shard == ShardOf(numberOfShards, FromBytes(address))
    {
      var bytesNeed := 0;
      if numberOfShards <= 256 {
        bytesNeed := 1;
      } else if numberOfShards <= 65536 {
        bytesNeed := 2;
      } else if numberOfShards <= 16777216 {
        bytesNeed := 3;
      } else {
        bytesNeed := 4;
      }
      var startingIndex := 0;
      if |address| > bytesNeed {
        startingIndex := |address| - bytesNeed;
      }
      var buffNeeded := address[startingIndex..];
      assert buffNeeded == BytesNeeded(numberOfShards, address);
      if isSmartContractOnMetachain(buffNeeded, address) {
        return METACHAIN_SHARD_ID;
      }
      var addr := AddressNumber(buffNeeded);
      shard := BitAnd(addr, maskHigh);
      if shard > (numberOfShards - 1) % UINT32_BOUND {
        shard := BitAnd(addr, maskLow);
      }
      assert shard == Masked(numberOfShards, (maskHigh, maskLow), addr);
      MaskedAddress(numberOfShards, (maskHigh, maskLow), address);
    }
  }

  // ---------------------------------------------------------------- trailing bytes, every shard

  /** Two addresses whose bytes read agree fall into the same shard, the metachain test apart. */
  lemma OnlyTrailingBytesMatter(numberOfShards: uint32, address: seq<byte>, other: seq<byte>)
    requires numberOfShards >= 1 && BytesNeeded(numberOfShards, address) == BytesNeeded(numberOfShards, other)
    ensures ShardOf(numberOfShards, FromBytes(address)) == ShardOf(numberOfShards, FromBytes(other))
  {
    ShardOfAddress(numberOfShards, address);
    ShardOfAddress(numberOfShards, other);
  }

  function BigEndian(x: nat, n: nat): (bytes: seq<byte>)
    ensures |bytes| == n
  {
    if n == 0 then [] else BigEndian(x / 256, n - 1) + [x % 256]
  }

  lemma {:induction false} BigEndianValue(x: nat, n: nat)
    requires x < Pow(256, n)
    ensures FromBytes(BigEndian(x, n)) == x
  {
    if n > 0 {
      BigEndianValue(x / 256, n - 1);
      var bytes := BigEndian(x, n);
      assert bytes[..|bytes| - 1] == BigEndian(x / 256, n - 1);
    }
  }

  /** Every shard is reached: an address that ends in the shard's own number falls into it. */
  lemma EveryShardIsReached(numberOfShards: uint32, shard: nat, prefix: seq<byte>)
    requires shard < numberOfShards
    ensures ShardOf(numberOfShards, FromBytes(prefix + BigEndian(shard, BytesNeed(numberOfShards)))) == shard
  {
    var trailing := BigEndian(shard, BytesNeed(numberOfShards));
    assert BytesNeeded(numberOfShards, prefix + trailing) == trailing == BytesNeeded(numberOfShards, trailing);
    OnlyTrailingBytesMatter(numberOfShards, prefix + trailing, trailing);
    EnoughBytes(numberOfShards);
    BigEndianValue(shard, BytesNeed(numberOfShards));
    LowBitsIsMod(shard, CeilLog2(numberOfShards));
    DivModUnique(shard, Pow(2, CeilLog2(numberOfShards)), 0, shard);
  }

  lemma LeastExponent(numberOfShards: nat, m: nat, n: nat)
    requires numberOfShards <= Pow(2, m) && (m > 0 ==> Pow(2, m - 1) < numberOfShards)
    requires numberOfShards <= Pow(2, n) && (n > 0 ==> Pow(2, n - 1) < numberOfShards)
    ensures m == n
  {
    if m < n {
      PowMonotone(2, m, n - 1);
    } else if n < m {
      PowMonotone(2, n, m - 1);
    }
  }

  /** The shard as a formula: with the least `n` for which `2^n` reaches the number of shards. */
  lemma ShardFormula(numberOfShards: uint32, address: seq<byte>, n: nat)
    requires numberOfShards >= 1 && numberOfShards <= Pow(2, n) && (n > 0 ==> Pow(2, n - 1) < numberOfShards)
    ensures var x := FromBytes(address);
      ShardOf(numberOfShards, x) ==
      if x % Pow(2, n) < numberOfShards || n == 0 then x % Pow(2, n) else x % Pow(2, n - 1)
  {
    var x := FromBytes(address);
    LeastExponent(numberOfShards, n, CeilLog2(numberOfShards));
    LowBitsIsMod(x, n);
    if n > 0 {
      LowBitsIsMod(x, n - 1);
    }
  }

  /** The bytes read: as many as it takes to count the shards, and at least one, from the end of the address. */
  lemma BytesReadAreLeast(numberOfShards: uint32, address: seq<byte>, k: nat)
    requires k >= 1 && numberOfShards <= Pow(256, k) && (k > 1 ==> Pow(256, k - 1) < numberOfShards)
    ensures BytesNeeded(numberOfShards, address) == if |address| <= k then address else address[|address| - k..]
  {
    assert Pow(256, 1) == 256 * Pow(256, 0);
    assert Pow(256, 2) == 256 * Pow(256, 1);
    assert Pow(256, 3) == 256 * Pow(256, 2);
    assert Pow(256, 4) == 256 * Pow(256, 3);
    if k > 4 {
      PowMonotone(256, 4, k - 1);
      assert false;
    }
  }
}
