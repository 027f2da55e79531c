/** `encoding/hex` and the big-endian byte form of `math/big` naturals. */
module Hex {
  import opened Wrappers
  import opened Numbers

  /** What `hex.DecodeString` returns: the bytes before the first error, and whether there was none. */
  datatype Decoded = Decoded(bytes: seq<byte>, ok: bool)

  function HexChar(d: nat): char
    requires d < 16
  {
    if d < 10 then ('0' as int + d) as char else ('a' as int + (d - 10)) as char
  }

  function HexValue(c: char): (v: Option<nat>)
    ensures v.Some? ==> v.value < 16
  {
    if '0' <= c <= '9' then Some(c as int - '0' as int)
    else if 'a' <= c <= 'f' then Some(c as int - 'a' as int + 10)
    else if 'A' <= c <= 'F' then Some(c as int - 'A' as int + 10)
    else None
  }

  function EncodeToString(bytes: seq<byte>): (s: string)
    ensures |s| == 2 * |bytes|
    ensures forall i :: 0 <= i < |s| ==> HexValue(s[i]).Some?
  {
    if bytes == [] then ""
    else [HexChar(bytes[0] / 16), HexChar(bytes[0] % 16)] + EncodeToString(bytes[1..])
  }

  function DecodeString(s: string): Decoded {
    if s == [] then Decoded([], true)
    else if |s| == 1 then Decoded([], false)
    else
      match (HexValue(s[0]), HexValue(s[1]))
      case (Some(hi), Some(lo)) =>
        var rest := DecodeString(s[2..]);
        Decoded([16 * hi + lo] + rest.bytes, rest.ok)
      case _ => Decoded([], false)
  }

  /** Every byte string survives hex encoding and decoding, without an error. */
  lemma {:induction false} DecodeEncode(bytes: seq<byte>)
    ensures DecodeString(EncodeToString(bytes)) == Decoded(bytes, true)
  {
    if bytes != [] {
      DecodeEncode(bytes[1..]);
      var s := EncodeToString(bytes);
      assert s[2..] == EncodeToString(bytes[1..]);
      assert HexValue(HexChar(bytes[0] / 16)) == Some(bytes[0] / 16);
      assert HexValue(HexChar(bytes[0] % 16)) == Some(bytes[0] % 16);
      assert 16 * (bytes[0] / 16) + bytes[0] % 16 == bytes[0];
      assert [bytes[0]] + bytes[1..] == bytes;
    }
  }

  /** `big.Int.Bytes`: big-endian, no leading zero byte. */
  function BigBytes(n: nat): (bytes: seq<byte>)
    ensures n > 0 <==> |bytes| > 0
  {
    if n == 0 then [] else BigBytes(n / 256) + [n % 256]
  }

  /** `big.Int.SetBytes`. */
  function FromBytes(bytes: seq<byte>): nat {
    if bytes == [] then 0 else 256 * FromBytes(bytes[..|bytes| - 1]) + bytes[|bytes| - 1]
  }

  lemma {:induction false} FromBigBytes(n: nat)
    ensures FromBytes(BigBytes(n)) == n
  {
    if n != 0 {
      FromBigBytes(n / 256);
      var bytes := BigBytes(n);
      assert bytes[..|bytes| - 1] == BigBytes(n / 256);
    }
  }

  lemma {:induction false} FromBytesBound(bytes: seq<byte>)
    ensures FromBytes(bytes) < Pow(256, |bytes|)
  {
    if bytes != [] {
      FromBytesBound(bytes[..|bytes| - 1]);
    }
  }

  lemma Scaled(x: nat, p: nat)
    ensures 256 * (x * p) == x * (256 * p)
  {
  }

  lemma {:induction false} FromBytesAppend(a: seq<byte>, b: seq<byte>)
    ensures FromBytes(a + b) == FromBytes(a) * Pow(256, |b|) + FromBytes(b)
  {
    if b == [] {
      assert a + b == a;
    } else {
      var init, last := b[..|b| - 1], b[|b| - 1];
      assert (a + b)[..|a + b| - 1] == a + init;
      FromBytesAppend(a, init);
      calc {
        FromBytes(a + b);
        256 * FromBytes(a + init) + last;
        256 * (FromBytes(a) * Pow(256, |init|) + FromBytes(init)) + last;
        { Scaled(FromBytes(a), Pow(256, |init|)); }
        FromBytes(a) * Pow(256, |b|) + FromBytes(b);
      }
    }
  }

  /** Two lower-case digits for every byte, the high one first. */
  lemma {:induction false} EncodedDigits(bytes: seq<byte>, i: nat)
    requires i < |bytes|
    ensures EncodeToString(bytes)[2 * i] == "0123456789abcdef"[bytes[i] / 16]
    ensures EncodeToString(bytes)[2 * i + 1] == "0123456789abcdef"[bytes[i] % 16]
  {
    if i > 0 {
      EncodedDigits(bytes[1..], i - 1);
    }
  }

  /** Digits are read in either case, and nothing else is. */
  lemma HexDigits(c: char, d: nat)
    requires d < 16
    ensures HexValue(c).None? <==> !('0' <= c <= '9' || 'a' <= c <= 'f' || 'A' <= c <= 'F')
    ensures HexValue("0123456789abcdef"[d]) == Some(d)
    ensures HexValue("0123456789ABCDEF"[d]) == Some(d)
  {
  }

  /** Decoding stops at the first pair that is not hex, and at a digit left alone, with what came before. */
  lemma {:induction false} DecodeStops(bytes: seq<byte>, rest: string)
    requires |rest| == 1 || (|rest| > 1 && (HexValue(rest[0]).None? || HexValue(rest[1]).None?))
    ensures DecodeString(EncodeToString(bytes) + rest) == Decoded(bytes, false)
  {
    var s := EncodeToString(bytes) + rest;
    if bytes == [] {
      assert s == rest;
    } else {
      DecodeStops(bytes[1..], rest);
      assert s[2..] == EncodeToString(bytes[1..]) + rest;
      assert HexValue(HexChar(bytes[0] / 16)) == Some(bytes[0] / 16);
      assert HexValue(HexChar(bytes[0] % 16)) == Some(bytes[0] % 16);
      assert [bytes[0]] + bytes[1..] == bytes;
    }
  }
}
