/**
 * Document ids of ESDT accounts as the indexer writes them, as the balance checker rebuilds them from
 * token identifiers, and the identifiers parsed back into token and nonce.
 */
module TokenIds {
  import opened Numbers
  import opened Strings
  import opened Hex

  function ComputeTokenIdentifier(token: string, nonce: uint64): string {
    if token == "" || nonce == 0 then "" else token + "-" + EncodeToString(BigBytes(nonce))
  }

  function EncodeNonceToHex(nonce: uint64): string {
    if nonce == 0 then "00" else EncodeToString(BigBytes(nonce))
  }

  /** The id of an account document; tokens have one per address, token and nonce. */
  function AccountId(address: string, isESDT: bool, token: string, nonce: uint64): string {
    if isESDT then address + "-" + token + "-" + EncodeNonceToHex(nonce) else address
  }

  /** The balance checker's own way to that id. */
  function PrepareID(addr: string, identifier: string): string {
    if identifier == "" then addr
    else
      var id := addr + "-" + identifier;
      if |Split(identifier, '-')| == 2 then id + "-00" else id
  }

  /** The gateway endpoint for a balance, as a value rather than a path. */
  datatype Endpoint = TokenEndpoint(address: string, identifier: string) | NFTEndpoint(address: string, token: string, nonce: nat)

  /** Errors of the decoding are ignored: what was decoded before counts. */
  function ComputeEndpoint(tokenIdentifier: string, addr: string): Endpoint {
    var split := Split(tokenIdentifier, '-');
    if |split| == 3 then
      NFTEndpoint(addr, split[0] + "-" + split[1], FromBytes(DecodeString(split[2]).bytes) % UINT64_BOUND)
    else TokenEndpoint(addr, tokenIdentifier)
  }

  /** The identifier under which a token's balance is stored. */
  function IdentifierOf(token: string, nonce: uint64): string {
    if nonce == 0 then token else ComputeTokenIdentifier(token, nonce)
  }

  // ---------------------------------------------------------------- codecs

  lemma HexHasNoDash(bytes: seq<byte>)
    ensures '-' !in EncodeToString(bytes)
  {
    assert HexValue('-').None?;
  }

  lemma SplitIdentifier(token: string, nonce: uint64)
    requires token != "" && nonce > 0
    ensures Split(ComputeTokenIdentifier(token, nonce), '-') == Split(token, '-') + [EncodeToString(BigBytes(nonce))]
  {
    var hex := EncodeToString(BigBytes(nonce));
    HexHasNoDash(BigBytes(nonce));
    assert token + "-" + hex == token + ['-'] + hex;
    SplitAppend(token, hex, '-');
    SplitWhole(hex, '-');
  }

  lemma SuffixChanges(s: string, suffix: string)
    requires suffix != ""
    ensures s + suffix != s
  {
    assert |s + suffix| != |s|;
  }

  /** Fungible tokens: the checker and the indexer agree exactly on tokens with one dash. */
  lemma TokenIdAgrees(addr: string, token: string)
    requires token != ""
    ensures PrepareID(addr, token) == AccountId(addr, true, token, 0) <==> Count(token, '-') == 1
  {
    var id := addr + "-" + token;
    assert id + "-" + "00" == id + "-00";
    SuffixChanges(id, "-00");
  }

  /** Regular accounts go by their address alone, for both. */
  lemma AddressAlone(addr: string, token: string, nonce: uint64)
    ensures PrepareID(addr, "") == addr == AccountId(addr, false, token, nonce)
    ensures ComputeTokenIdentifier(token, 0) == "" && ComputeTokenIdentifier("", nonce) == ""
  {
  }

  lemma NFTIds(addr: string, token: string, nonce: uint64)
    requires token != "" && nonce > 0
    ensures var id := AccountId(addr, true, token, nonce);
      PrepareID(addr, ComputeTokenIdentifier(token, nonce)) == if Count(token, '-') == 0 then id + "-00" else id
  {
    var hex := EncodeToString(BigBytes(nonce));
    assert |Split(ComputeTokenIdentifier(token, nonce), '-')| == Count(token, '-') + 2 by {
      SplitIdentifier(token, nonce);
    }
    assert addr + "-" + (token + "-" + hex) == addr + "-" + token + "-" + hex;
  }

  /** With a nonce: they agree exactly on tokens with some dash. */
  lemma NFTIdAgrees(addr: string, token: string, nonce: uint64)
    requires token != "" && nonce > 0
    ensures PrepareID(addr, ComputeTokenIdentifier(token, nonce)) == AccountId(addr, true, token, nonce) <==> Count(token, '-') != 0
  {
    NFTIds(addr, token, nonce);
    SuffixChanges(AccountId(addr, true, token, nonce), "-00");
  }

  /** So for all nonces of a token, with zero for none, exactly when its name has one dash. */
  lemma IdsAgreeExactly(addr: string, token: string)
    requires token != ""
    ensures Count(token, '-') == 1 <==>
      forall nonce: uint64 :: PrepareID(addr, IdentifierOf(token, nonce)) == AccountId(addr, true, token, nonce)
  {
    TokenIdAgrees(addr, token);
    assert IdentifierOf(token, 0) == token;
    forall nonce: uint64 | nonce > 0 {
      NFTIdAgrees(addr, token, nonce);
    }
  }

  lemma NonceValue(nonce: uint64)
    ensures FromBytes(DecodeString(EncodeNonceToHex(nonce)).bytes) == nonce
  {
    if nonce == 0 {
      assert DecodeString("00") == Decoded([0], true) by {
        assert "00"[2..] == "" && [0] + [] == [0];
      }
      assert FromBytes([0]) == 0 by { assert [0][..0] == []; }
    } else {
      DecodeEncode(BigBytes(nonce));
      FromBigBytes(nonce);
    }
  }

  lemma TwoParts(token: string)
    requires Count(token, '-') == 1
    ensures var parts := Split(token, '-'); |parts| == 2 && parts[0] + "-" + parts[1] == token
  {
    var parts := Split(token, '-');
    JoinSplit(token, '-');
    assert parts[1..] == [parts[1]];
    assert Join(parts, '-') == parts[0] + ['-'] + parts[1];
  }

  lemma EndpointOfOtherTokens(addr: string, token: string, nonce: uint64)
    requires token != "" && nonce > 0 && Count(token, '-') != 1
    ensures ComputeEndpoint(ComputeTokenIdentifier(token, nonce), addr).TokenEndpoint?
  {
    SplitIdentifier(token, nonce);
    var id := ComputeTokenIdentifier(token, nonce);
    assert |Split(id, '-')| == |Split(token, '-')| + 1;
  }

  /** Three parts are a token and a nonce, of which the last 64 bits count; anything else is a token. */
  lemma EndpointOfAnything(addr: string, identifier: string, a: string, b: string, bytes: seq<byte>)
    ensures |Split(identifier, '-')| != 3 ==> ComputeEndpoint(identifier, addr) == TokenEndpoint(addr, identifier)
    ensures '-' !in a && '-' !in b ==>
      ComputeEndpoint(Join([a, b, EncodeToString(bytes)], '-'), addr) ==
        NFTEndpoint(addr, a + "-" + b, FromBytes(bytes) % 0x1_0000_0000_0000_0000)
  {
    HexHasNoDash(bytes);
    DecodeEncode(bytes);
    if '-' !in a && '-' !in b {
      SplitJoin([a, b, EncodeToString(bytes)], '-');
    }
  }

  lemma EndpointOfParts(identifier: string, addr: string, parts: seq<string>, hex: string, nonce: uint64)
    requires |parts| == 2 && Split(identifier, '-') == parts + [hex] && FromBytes(DecodeString(hex).bytes) == nonce
    ensures ComputeEndpoint(identifier, addr) == NFTEndpoint(addr, parts[0] + "-" + parts[1], nonce)
  {
  }

  lemma EndpointOfOneDash(addr: string, token: string, nonce: uint64)
    requires nonce > 0 && Count(token, '-') == 1
    ensures ComputeEndpoint(ComputeTokenIdentifier(token, nonce), addr) == NFTEndpoint(addr, token, nonce)
  {
    var id, hex, parts := ComputeTokenIdentifier(token, nonce), EncodeNonceToHex(nonce), Split(token, '-');
    assert Split(id, '-') == parts + [hex] by { SplitIdentifier(token, nonce); }
    assert |parts| == 2 && parts[0] + "-" + parts[1] == token by { TwoParts(token); }
    assert FromBytes(DecodeString(hex).bytes) == nonce by { NonceValue(nonce); }
    EndpointOfParts(id, addr, parts, hex, nonce);
  }

  /** The endpoint names the token and nonce an identifier was computed from, for exactly those tokens. */
  lemma EndpointRecoversTokenAndNonce(addr: string, token: string, nonce: uint64)
    requires token != "" && nonce > 0
    ensures ComputeEndpoint(ComputeTokenIdentifier(token, nonce), addr) == NFTEndpoint(addr, token, nonce) <==>
      Count(token, '-') == 1
  {
    if Count(token, '-') == 1 {
      EndpointOfOneDash(addr, token, nonce);
    } else {
      EndpointOfOtherTokens(addr, token, nonce);
    }
  }

  lemma ThreeParts(prefix: string, ticker: string, random: string)
    requires '-' !in prefix && '-' !in ticker && '-' !in random
    ensures Count(prefix + ['-'] + (ticker + ['-'] + random), '-') == 2
  {
    SplitAppend(prefix, ticker + ['-'] + random, '-');
    SplitAppend(ticker, random, '-');
    SplitWhole(prefix, '-');
    SplitWhole(ticker, '-');
    SplitWhole(random, '-');
  }

  /** A token with a prefix: the checker misses its id, and takes its identifiers for tokens. */
  lemma PrefixedTokensDisagree(addr: string, token: string, nonce: uint64)
    requires token == "sov-TKN-abcdef" && nonce > 0
    ensures PrepareID(addr, token) != AccountId(addr, true, token, 0)
    ensures ComputeEndpoint(ComputeTokenIdentifier(token, nonce), addr).TokenEndpoint?
  {
    assert token == "sov" + ['-'] + ("TKN" + ['-'] + "abcdef");
    ThreeParts("sov", "TKN", "abcdef");
    TokenIdAgrees(addr, token);
    EndpointOfOtherTokens(addr, token, nonce);
  }

  lemma NonceHasNoDash(nonce: uint64)
    ensures '-' !in EncodeNonceToHex(nonce)
  {
    HexHasNoDash(BigBytes(nonce));
  }

  lemma LastDash(a: string, x: string, b: string, y: string)
    requires '-' !in x && '-' !in y && a + ['-'] + x == b + ['-'] + y
    ensures a == b && x == y
  {
    SplitAppend(a, x, '-');
    SplitAppend(b, y, '-');
    SplitWhole(x, '-');
    SplitWhole(y, '-');
    var parts := Split(a + ['-'] + x, '-');
    assert parts == Split(a, '-') + [x] && parts[|parts| - 1] == x;
    assert parts == Split(b, '-') + [y] && parts[|parts| - 1] == y;
    assert a == (a + ['-'] + x)[..|a|] == (b + ['-'] + y)[..|b|] == b;
  }

  lemma WithoutPrefix(prefix: string, t: string, x: string, u: string, y: string)
    requires prefix + t + "-" + x == prefix + u + "-" + y
    ensures t + ['-'] + x == u + ['-'] + y
  {
    var a, b := t + ['-'] + x, u + ['-'] + y;
    assert prefix + a == prefix + t + "-" + x && prefix + b == prefix + u + "-" + y;
    assert a == (prefix + a)[|prefix|..] && b == (prefix + b)[|prefix|..];
  }

  lemma NonceHexIsInjective(m: uint64, n: uint64)
    requires EncodeNonceToHex(m) == EncodeNonceToHex(n)
    ensures m == n
  {
    NonceValue(m);
    NonceValue(n);
  }

  /** Two token documents of one address share an id only if they are the same token and nonce. */
  lemma AccountIdsAreDistinct(address: string, t: string, u: string, m: uint64, n: uint64)
    requires AccountId(address, true, t, m) == AccountId(address, true, u, n)
    ensures t == u && m == n
  {
    var hm, hn := EncodeNonceToHex(m), EncodeNonceToHex(n);
    NonceHasNoDash(m);
    NonceHasNoDash(n);
    WithoutPrefix(address + "-", t, hm, u, hn);
    LastDash(t, hm, u, hn);
    NonceHexIsInjective(m, n);
  }

  lemma FirstDash(a: string, x: string, b: string, y: string)
    requires '-' !in a && '-' !in b && a + ['-'] + x == b + ['-'] + y
    ensures a == b
  {
    SplitAppend(a, x, '-');
    SplitAppend(b, y, '-');
    SplitWhole(a, '-');
    SplitWhole(b, '-');
    assert Split(a + ['-'] + x, '-')[0] == a && Split(b + ['-'] + y, '-')[0] == b;
  }

  lemma Bracketed(a: string, t: string, hex: string)
    ensures a + "-" + t + "-" + hex == a + ['-'] + (t + "-" + hex)
  {
  }

  /** Without a dash in the addresses, ids of different addresses differ as well. */
  lemma AccountIdsTellAddresses(a: string, b: string, t: string, u: string, m: uint64, n: uint64)
    requires '-' !in a && '-' !in b
    requires AccountId(a, true, t, m) == AccountId(b, true, u, n)
    ensures a == b && t == u && m == n
  {
    var x, y := t + "-" + EncodeNonceToHex(m), u + "-" + EncodeNonceToHex(n);
    Bracketed(a, t, EncodeNonceToHex(m));
    Bracketed(b, u, EncodeNonceToHex(n));
    FirstDash(a, x, b, y);
    AccountIdsAreDistinct(a, t, u, m, n);
  }
}
