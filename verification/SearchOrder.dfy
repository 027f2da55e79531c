/** The search order of a block: a decimal code of its shard and nonce. */
module SearchOrder {
  import opened Wrappers
  import opened Numbers
  import opened Decimal

  /** Unsigned addition wraps around. */
  function CreateShardIdentifier(shardID: uint32): uint32 {
    if shardID == METACHAIN_SHARD_ID then 1 else (shardID + 2) % UINT32_BOUND
  }

  /** `%02d`. */
  function TwoDigits(n: nat): (s: string)
    ensures AllDigits(s)
  {
    if n < 10 then "0" + Format(n) else Format(n)
  }

  function OrderString(shardID: uint32, nonce: uint64): (s: string)
    ensures AllDigits(s)
  {
    "1" + TwoDigits(CreateShardIdentifier(shardID)) + Format(nonce)
  }

  /** 0 stands for an order that does not fit. */
  function ComputeBlockSearchOrder(shardID: uint32, nonce: uint64): nat {
    match ParseUint(OrderString(shardID, nonce), 64)
    case Some(order) => order
    case None => 0
  }

  /** No two shards share an identifier, the metachain included. */
  lemma ShardIdentifierIsInjective(a: uint32, b: uint32)
    requires CreateShardIdentifier(a) == CreateShardIdentifier(b)
    ensures a == b
  {
  }

  lemma TwoDigitsValue(n: nat)
    ensures Value(TwoDigits(n)) == n
    ensures n < 100 ==> |TwoDigits(n)| == 2
    ensures n == 100 ==> |TwoDigits(n)| == 3
  {
    ValueFormat(n);
    if n < 10 {
      ValueAppend("0", Format(n));
      assert Value("0") == 0 by { assert "0"[..0] == ""; }
    } else if n < 100 {
      assert |Format(n / 10)| == 1;
    }
  }

  /** The digits before the nonce, as a number. */
  function Prefix(shardID: uint32): nat {
    var id := CreateShardIdentifier(shardID);
    Pow(10, |TwoDigits(id)|) + id
  }

  /** The number the order stands for. */
  function Code(shardID: uint32, nonce: uint64): nat {
    Prefix(shardID) * Pow(10, |Format(nonce)|) + nonce
  }

  lemma PowTen()
    ensures Pow(10, 1) == 10 && Pow(10, 2) == 100 && Pow(10, 3) == 1000
  {
    assert Pow(10, 1) == 10 * Pow(10, 0);
    assert Pow(10, 2) == 10 * Pow(10, 1);
  }

  lemma PowTwo64()
    ensures Pow(2, 64) == UINT64_BOUND
  {
    assert Pow(2, 8) == 256;
    PowAdd(2, 8, 8);
    PowAdd(2, 16, 16);
    PowAdd(2, 32, 32);
  }

  lemma PrefixValue(shardID: uint32)
    ensures AllDigits("1" + TwoDigits(CreateShardIdentifier(shardID)))
    ensures Value("1" + TwoDigits(CreateShardIdentifier(shardID))) == Prefix(shardID)
    ensures Prefix(shardID) >= 1
    ensures CreateShardIdentifier(shardID) < 100 ==> Prefix(shardID) == 100 + CreateShardIdentifier(shardID)
    ensures CreateShardIdentifier(shardID) == 100 ==> Prefix(shardID) == 1100
  {
    var id := CreateShardIdentifier(shardID);
    TwoDigitsValue(id);
    ValueAppend("1", TwoDigits(id));
    assert Value("1") == 1 by { assert "1"[..0] == ""; }
    PowTen();
  }

  lemma OrderValue(shardID: uint32, nonce: uint64)
    ensures Value(OrderString(shardID, nonce)) == Code(shardID, nonce)
  {
    PrefixValue(shardID);
    ValueAppend("1" + TwoDigits(CreateShardIdentifier(shardID)), Format(nonce));
    ValueFormat(nonce);
  }

  lemma MulMonotone(k: nat, x: nat, y: nat)
    requires x <= y
    ensures k * x <= k * y
  {
  }

  lemma CodeIsPositive(shardID: uint32, nonce: uint64)
    ensures Code(shardID, nonce) > 0
  {
    PrefixValue(shardID);
    MulMonotone(Pow(10, |Format(nonce)|), 1, Prefix(shardID));
  }

  /** The order is that number whenever it fits 64 bits. */
  lemma OrderIsCode(shardID: uint32, nonce: uint64)
    ensures ComputeBlockSearchOrder(shardID, nonce) ==
      if Code(shardID, nonce) < UINT64_BOUND then Code(shardID, nonce) else 0
    ensures CreateShardIdentifier(shardID) < 100 ==>
      Code(shardID, nonce) == (100 + CreateShardIdentifier(shardID)) * Pow(10, |Format(nonce)|) + nonce
  {
    PrefixValue(shardID);
    OrderValue(shardID, nonce);
    PowTwo64();
  }

  /** Digit by digit: `1`, then two digits that are the shard plus two, or 01 for the metachain, then the nonce. */
  lemma OrderDigits(shardID: uint32, nonce: uint64)
    requires shardID < 98 || shardID == 0xFFFF_FFFF
    ensures var prefix := if shardID == 0xFFFF_FFFF then 101 else 102 + shardID;
      Code(shardID, nonce) == prefix * Pow(10, |Format(nonce)|) + nonce
  {
    var id := CreateShardIdentifier(shardID);
    assert id == if shardID == 0xFFFF_FFFF then 1 else shardID + 2;
    assert Prefix(shardID) == 100 + id by {
      PrefixValue(shardID);
    }
  }

  /** A number with `f` times the positions behind its prefix is larger. */
  lemma LongerIsLarger(j: nat, k: nat, f: nat, p: nat, q: nat, a: nat, b: nat)
    requires j + 1 <= f * k && f * p <= q && a < p
    ensures j * p + a < k * q + b
  {
    calc {
      j * p + a;
      < (j + 1) * p;
      <= { MulMonotone(p, j + 1, f * k); }
      (f * k) * p;
      == k * (f * p);
      <= { MulMonotone(k, f * p, q); }
      k * q;
      <= k * q + b;
    }
  }

  lemma CodeIsMonotone(shardID: uint32, a: uint64, b: uint64)
    requires a < b
    ensures Code(shardID, a) < Code(shardID, b)
  {
    FormatLengthMonotone(a, b);
    FormatLength(a);
    PrefixValue(shardID);
    var d, e := |Format(a)|, |Format(b)|;
    if d < e {
      PowMonotone(10, d + 1, e);
      LongerIsLarger(Prefix(shardID), Prefix(shardID), 10, Pow(10, d), Pow(10, e), a, b);
    }
  }

  /** Within a shard a later block has a larger order, also when the nonce grows by a digit. */
  lemma OrderIsMonotone(shardID: uint32, a: uint64, b: uint64)
    requires a < b && Code(shardID, b) < UINT64_BOUND
    ensures ComputeBlockSearchOrder(shardID, a) < ComputeBlockSearchOrder(shardID, b)
  {
    CodeIsMonotone(shardID, a, b);
    OrderIsCode(shardID, a);
    OrderIsCode(shardID, b);
  }

  // ---------------------------------------------------------------- which shards can be told apart

  /** The metachain, or one of `numberOfShards` ordinary shards. */
  predicate IsShard(shardID: uint32, numberOfShards: nat) {
    shardID < numberOfShards || shardID == METACHAIN_SHARD_ID
  }

  ghost predicate OrdersAreDistinct(numberOfShards: nat) {
    forall s: uint32, t: uint32, a: uint64, b: uint64 |
      IsShard(s, numberOfShards) && IsShard(t, numberOfShards) &&
      Code(s, a) < UINT64_BOUND && Code(t, b) < UINT64_BOUND &&
      ComputeBlockSearchOrder(s, a) == ComputeBlockSearchOrder(t, b) :: s == t && a == b
  }

  /** Equal numbers with similar prefixes have nonces of the same length. */
  lemma SameLength(j: nat, k: nat, d: nat, e: nat, a: nat, b: nat)
    requires j + 1 <= 10 * k && a < Pow(10, d)
    requires j * Pow(10, d) + a == k * Pow(10, e) + b
    ensures d >= e
  {
    if d < e {
      PowMonotone(10, d + 1, e);
      LongerIsLarger(j, k, 10, Pow(10, d), Pow(10, e), a, b);
    }
  }

  lemma SameNonce(j: nat, k: nat, d: nat, a: nat, b: nat)
    requires a < Pow(10, d) && b < Pow(10, d)
    requires j * Pow(10, d) + a == k * Pow(10, d) + b
    ensures j == k && a == b
  {
    DivModUnique(j * Pow(10, d) + a, Pow(10, d), j, a);
    DivModUnique(k * Pow(10, d) + b, Pow(10, d), k, b);
  }

  lemma SimilarPrefixes(j: nat, k: nat, d: nat, e: nat, a: nat, b: nat)
    requires j + 1 <= 10 * k && k + 1 <= 10 * j && a < Pow(10, d) && b < Pow(10, e)
    requires j * Pow(10, d) + a == k * Pow(10, e) + b
    ensures j == k && a == b
  {
    SameLength(j, k, d, e, a, b);
    SameLength(k, j, e, d, b, a);
    SameNonce(j, k, d, a, b);
  }

  lemma NextTo(k: nat, p: nat, a: nat, b: nat)
    requires a < p <= b < 10 * p
    ensures 1100 * p + a != k * (10 * p) + b
  {
    if k >= 110 {
      MulMonotone(10 * p, 110, k);
    } else {
      MulMonotone(10 * p, k, 109);
    }
  }

  /** A shard with identifier 100 shares no order with one of two digits. */
  lemma HundredStandsAlone(k: nat, d: nat, e: nat, a: nat, b: nat)
    requires 100 <= k < 200 && a < Pow(10, d) && b < Pow(10, e)
    requires e > 1 ==> b >= Pow(10, e - 1)
    requires d >= 1 && e >= 1
    ensures 1100 * Pow(10, d) + a != k * Pow(10, e) + b
  {
    if e <= d {
      PowMonotone(10, e, d);
      LongerIsLarger(k, 1100, 1, Pow(10, e), Pow(10, d), b, a);
    } else if e == d + 1 {
      NextTo(k, Pow(10, d), a, b);
    } else {
      PowMonotone(10, d + 2, e);
      assert Pow(10, d + 2) == 10 * Pow(10, d + 1) == 100 * Pow(10, d);
      LongerIsLarger(1100, k, 100, Pow(10, d), Pow(10, e), a, b);
    }
  }

  /** Prefixes below 200 and the prefix 1100 never give the same number. */
  lemma PrefixesStandAlone(j: nat, k: nat, d: nat, e: nat, a: nat, b: nat)
    requires (100 <= j < 200 || j == 1100) && (100 <= k < 200 || k == 1100)
    requires d >= 1 && a < Pow(10, d) && (d > 1 ==> a >= Pow(10, d - 1))
    requires e >= 1 && b < Pow(10, e) && (e > 1 ==> b >= Pow(10, e - 1))
    requires j * Pow(10, d) + a == k * Pow(10, e) + b
    ensures j == k && a == b
  {
    if j == 1100 && k < 200 {
      HundredStandsAlone(k, d, e, a, b);
    } else if k == 1100 && j < 200 {
      HundredStandsAlone(j, e, d, b, a);
    } else {
      SimilarPrefixes(j, k, d, e, a, b);
    }
  }

  lemma PrefixUpTo99(shardID: uint32)
    requires IsShard(shardID, 99)
    ensures 100 <= Prefix(shardID) < 200 || Prefix(shardID) == 1100
    ensures CreateShardIdentifier(shardID) == if Prefix(shardID) == 1100 then 100 else Prefix(shardID) - 100
  {
    PrefixValue(shardID);
  }

  lemma PrefixIsInjective(s: uint32, t: uint32)
    requires IsShard(s, 99) && IsShard(t, 99) && Prefix(s) == Prefix(t)
    ensures s == t
  {
    assert CreateShardIdentifier(s) == CreateShardIdentifier(t) by {
      PrefixUpTo99(s);
      PrefixUpTo99(t);
    }
    ShardIdentifierIsInjective(s, t);
  }

  lemma DistinctUpTo99(s: uint32, t: uint32, a: uint64, b: uint64)
    requires IsShard(s, 99) && IsShard(t, 99)
    requires Code(s, a) == Code(t, b)
    ensures s == t && a == b
  {
    PrefixUpTo99(s);
    PrefixUpTo99(t);
    FormatLength(a);
    FormatLength(b);
    PrefixesStandAlone(Prefix(s), Prefix(t), |Format(a)|, |Format(b)|, a, b);
    PrefixIsInjective(s, t);
  }

  /** Shards 99 and 8 have identifiers 101 and 10: nonce 5 of the one and 15 of the other both give 11015. */
  lemma OrdersCollide()
    ensures ComputeBlockSearchOrder(99, 5) == ComputeBlockSearchOrder(8, 15) == 11015
  {
    assert Format(15) == "15" && Format(10) == "10" && Format(5) == "5";
    assert Format(101) == "101" by { assert Format(10) == "10"; }
    assert OrderString(99, 5) == "11015" == OrderString(8, 15);
    PrefixValue(8);
    PowTen();
    OrderIsCode(8, 15);
  }

  lemma CollidingCodesFit()
    ensures Code(99, 5) == Code(8, 15) == 11015
  {
    OrdersCollide();
    OrderIsCode(99, 5);
    OrderIsCode(8, 15);
    CodeIsPositive(99, 5);
  }

  /** Orders identify a block exactly as long as there are at most 99 shards beside the metachain. */
  lemma OrdersAreDistinctExactly(numberOfShards: nat)
    ensures OrdersAreDistinct(numberOfShards) <==> numberOfShards <= 99
  {
    if numberOfShards <= 99 {
      forall s: uint32, t: uint32, a: uint64, b: uint64 |
        IsShard(s, numberOfShards) && IsShard(t, numberOfShards) &&
        Code(s, a) < UINT64_BOUND && Code(t, b) < UINT64_BOUND &&
        ComputeBlockSearchOrder(s, a) == ComputeBlockSearchOrder(t, b)
        ensures s == t && a == b
      {
        OrderIsCode(s, a);
        OrderIsCode(t, b);
        CodeIsPositive(s, a);
        DistinctUpTo99(s, t, a, b);
      }
    } else {
      OrdersCollide();
      OrderIsCode(99, 5);
      OrderIsCode(8, 15);
      CollidingCodesFit();
      assert IsShard(99, numberOfShards) && IsShard(8, numberOfShards);
    }
  }

  /** Of the metachain and the first 99 shards, an order other than 0 names one block. */
  lemma OrderNamesBlock(s: uint32, t: uint32, a: uint64, b: uint64)
    requires (s < 99 || s == 0xFFFF_FFFF) && (t < 99 || t == 0xFFFF_FFFF)
    requires ComputeBlockSearchOrder(s, a) == ComputeBlockSearchOrder(t, b) != 0
    ensures s == t && a == b
  {
    OrderIsCode(s, a);
    OrderIsCode(t, b);
    DistinctUpTo99(s, t, a, b);
  }
}
