/** Metric topics: a topic extended with a shard, stored in snake case and split again when reported. */
module Topics {
  import opened Wrappers
  import opened Numbers
  import opened Strings
  import opened Decimal

  const SEPARATOR := '_'
  const NO_SHARD_ID := "#"

  function ExtendTopicWithShardID(topic: string, shardID: uint32): string {
    topic + [SEPARATOR] + Format(shardID)
  }

  /** The topic and the decimal shard; a topic without a shard goes with `#`. */
  function SplitTopicAndShardID(topicWithShardID: string): (string, string) {
    var split := Split(topicWithShardID, SEPARATOR);
    if |split| < 2 then (topicWithShardID, NO_SHARD_ID)
    else
      var shardIDStr := split[|split| - 1];
      if ParseUint(shardIDStr, 32).None? then (topicWithShardID, NO_SHARD_ID)
      else (Join(split[..|split| - 1], SEPARATOR), shardIDStr)
  }

  // ---------------------------------------------------------------- snake case

  /** The character tables of Go's package `unicode`. */
  datatype Unicode = Unicode(isUpper: char -> bool, isLower: char -> bool, toLower: char -> char)

  /** Tables that are right about ASCII; they may say anything about other characters. */
  ghost predicate KnowsASCII(u: Unicode) {
    forall c: char :: c as int < 128 ==>
      && (u.isUpper(c) <==> 'A' <= c <= 'Z')
      && (u.isLower(c) <==> 'a' <= c <= 'z')
      && u.toLower(c) == if 'A' <= c <= 'Z' then (c as int + 32) as char else c
  }

  /** Such as the tables of ASCII alone. */
  lemma ASCIITables()
    ensures KnowsASCII(Unicode(
      (c: char) => 'A' <= c <= 'Z', (c: char) => 'a' <= c <= 'z',
      (c: char) => if 'A' <= c <= 'Z' then (c as int + 32) as char else c))
  {
  }

  /** The last byte of a character in UTF-8, which the code takes for the character before. */
  function LastByte(c: char): char {
    if c as int < 128 then c else (128 + c as int % 64) as char
  }

  /** A capital right behind a lower-case letter. */
  predicate IsHump(u: Unicode, s: string, i: nat)
    requires i < |s|
  {
    u.isUpper(s[i]) && i > 0 && u.isLower(LastByte(s[i - 1]))
  }

  function Lowered(u: Unicode, c: char): char {
    if u.isUpper(c) then u.toLower(c) else c
  }

  function SnakeAt(u: Unicode, s: string, i: nat): string
    requires i < |s|
  {
    if IsHump(u, s, i) then [SEPARATOR, Lowered(u, s[i])] else [Lowered(u, s[i])]
  }

  function SnakeTo(u: Unicode, s: string, n: nat): string
    requires n <= |s|
  {
    if n == 0 then "" else SnakeTo(u, s, n - 1) + SnakeAt(u, s, n - 1)
  }

  function Snake(u: Unicode, s: string): string {
    SnakeTo(u, s, |s|)
  }

  method CamelToSnake(u: Unicode, camelStr: string) returns (snake: string)
    ensures snake == Snake(u, camelStr)
  {
    snake := "";
    for i := 0 to |camelStr|
      invariant snake == SnakeTo(u, camelStr, i)
    {
      var r := camelStr[i];
      if u.isUpper(r) {
        if i > 0 && u.isLower(LastByte(camelStr[i - 1])) {
          snake := snake + [SEPARATOR];
        }
        snake := snake + [u.toLower(r)];
      } else {
        snake := snake + [r];
      }
    }
  }

  // ---------------------------------------------------------------- what the snake form is

  function Humps(u: Unicode, s: string, n: nat): set<nat>
    requires n <= |s|
  {
    set i: nat | i < n && IsHump(u, s, i)
  }

  lemma OneMoreHump(u: Unicode, s: string, i: nat)
    requires i < |s|
    ensures |Humps(u, s, i + 1)| == |Humps(u, s, i)| + if IsHump(u, s, i) then 1 else 0
  {
    var before, after := Humps(u, s, i), Humps(u, s, i + 1);
    assert forall k :: k in after <==> k in before || (k == i && IsHump(u, s, i));
    if IsHump(u, s, i) {
      assert after == before + {i};
    } else {
      assert after == before;
    }
  }

  lemma {:induction false} SnakeLength(u: Unicode, s: string, n: nat)
    requires n <= |s|
    ensures |SnakeTo(u, s, n)| == n + |Humps(u, s, n)|
  {
    if n == 0 {
      assert Humps(u, s, n) == {};
    } else {
      SnakeLength(u, s, n - 1);
      OneMoreHump(u, s, n - 1);
    }
  }

  /** Later characters only add to what is there. */
  lemma {:induction false} SnakeGrows(u: Unicode, s: string, m: nat, n: nat)
    requires m <= n <= |s|
    ensures SnakeTo(u, s, m) <= SnakeTo(u, s, n)
  {
    if m < n {
      SnakeGrows(u, s, m, n - 1);
    }
  }

  /**
   * Every character comes out in lower case, moved by the number of humps so far, its own included;
   * a hump has a separator before it, and nothing else is added.
   */
  lemma SnakeMeaning(u: Unicode, s: string, i: nat)
    requires i < |s|
    ensures |Snake(u, s)| == |s| + |Humps(u, s, |s|)|
    ensures var at := i + |Humps(u, s, i + 1)|;
      && at < |Snake(u, s)| && Snake(u, s)[at] == Lowered(u, s[i])
      && (IsHump(u, s, i) ==> at > 0 && Snake(u, s)[at - 1] == SEPARATOR)
  {
    SnakeLength(u, s, |s|);
    SnakeLength(u, s, i);
    SnakeLength(u, s, i + 1);
    SnakeGrows(u, s, i + 1, |s|);
    assert SnakeTo(u, s, i + 1) == SnakeTo(u, s, i) + SnakeAt(u, s, i);
  }

  /** In ASCII, a hump is a capital right behind a lower-case letter. */
  predicate IsASCIIHump(s: string, k: nat)
    requires k < |s|
  {
    k > 0 && 'A' <= s[k] <= 'Z' && 'a' <= s[k - 1] <= 'z'
  }

  /** The same for an ASCII topic, with nothing taken from the tables. */
  lemma SnakeOfASCII(u: Unicode, s: string, i: nat)
    requires KnowsASCII(u) && i < |s| && forall k :: 0 <= k < |s| ==> s[k] as int < 128
    ensures var humps := set k: nat | k <= i && IsASCIIHump(s, k);
      && i + |humps| < |Snake(u, s)|
      && Snake(u, s)[i + |humps|] == (if 'A' <= s[i] <= 'Z' then (s[i] as int + 32) as char else s[i])
      && (IsASCIIHump(s, i) ==> i + |humps| > 0 && Snake(u, s)[i + |humps| - 1] == '_')
    ensures |Snake(u, s)| == |s| + |set k: nat | k < |s| && IsASCIIHump(s, k)|
  {
    SnakeMeaning(u, s, i);
    assert Humps(u, s, i + 1) == set k: nat | k <= i && IsASCIIHump(s, k);
    assert Humps(u, s, |s|) == set k: nat | k < |s| && IsASCIIHump(s, k);
  }

  /** Behind a character of several bytes, its last byte counts: U+00F5 ends in 0xB5, which Latin-1 has as a letter. */
  lemma ByteBefore(u: Unicode, capital: char)
    requires KnowsASCII(u) && u.isUpper(capital) && !u.isUpper('\U{00F5}')
    ensures Snake(u, ['\U{00F5}', capital]) ==
      if u.isLower('\U{00B5}') then ['\U{00F5}', '_', u.toLower(capital)] else ['\U{00F5}', u.toLower(capital)]
  {
    assert SnakeTo(u, ['\U{00F5}', capital], 1) == "" + ['\U{00F5}'];
  }

  /** A string in which no capital has another lower-case form or stands behind a lower-case letter. */
  predicate Settled(u: Unicode, s: string) {
    forall i :: 0 <= i < |s| ==> !IsHump(u, s, i) && Lowered(u, s[i]) == s[i]
  }

  lemma {:induction false} SettledStays(u: Unicode, s: string, n: nat)
    requires n <= |s| && Settled(u, s)
    ensures SnakeTo(u, s, n) == s[..n]
  {
    if n > 0 {
      SettledStays(u, s, n - 1);
    }
  }

  /** Exactly the settled strings are their own snake form. */
  lemma FixedExactly(u: Unicode, s: string)
    ensures Snake(u, s) == s <==> Settled(u, s)
  {
    if Settled(u, s) {
      SettledStays(u, s, |s|);
    }
    if Snake(u, s) == s {
      SnakeLength(u, s, |s|);
      assert Humps(u, s, |s|) == {};
      forall i | 0 <= i < |s|
        ensures !IsHump(u, s, i) && Lowered(u, s[i]) == s[i]
      {
        assert i !in Humps(u, s, |s|);
        assert Humps(u, s, i + 1) == {};
        SnakeMeaning(u, s, i);
      }
    }
  }

  /**
   * A character that a second conversion leaves alone: its lower-case form is no capital, or is its own
   * lower-case form and does not come to stand right behind a lower-case letter.
   */
  predicate StaysPut(u: Unicode, s: string, i: nat)
    requires i < |s|
  {
    var l := Lowered(u, s[i]);
    u.isUpper(l) ==> u.toLower(l) == l && (i == 0 || IsHump(u, s, i) || !u.isLower(LastByte(Lowered(u, s[i - 1]))))
  }

  /** Whether a character can follow `s` in a settled string. */
  predicate Fits(u: Unicode, s: string, c: char) {
    Lowered(u, c) == c && (u.isUpper(c) && s != [] ==> !u.isLower(LastByte(s[|s| - 1])))
  }

  lemma SettledLast(u: Unicode, s: string, c: char)
    ensures Settled(u, s + [c]) <==> Settled(u, s) && Fits(u, s, c)
  {
    var t := s + [c];
    assert forall i :: 0 <= i < |s| ==> t[i] == s[i] && IsHump(u, t, i) == IsHump(u, s, i);
    assert t[|s|] == c;
    if Settled(u, t) {
      assert !IsHump(u, t, |s|);
    }
  }

  lemma SettledStep(u: Unicode, s: string, i: nat)
    requires KnowsASCII(u) && i < |s|
    requires i > 0 ==> SnakeTo(u, s, i) != [] && SnakeTo(u, s, i)[|SnakeTo(u, s, i)| - 1] == Lowered(u, s[i - 1])
    ensures Settled(u, SnakeTo(u, s, i + 1)) <==> Settled(u, SnakeTo(u, s, i)) && StaysPut(u, s, i)
  {
    var before, l := SnakeTo(u, s, i), Lowered(u, s[i]);
    assert !u.isUpper(SEPARATOR) && !u.isLower(SEPARATOR);
    if IsHump(u, s, i) {
      SettledLast(u, before, SEPARATOR);
      SettledLast(u, before + [SEPARATOR], l);
      assert before + [SEPARATOR] + [l] == SnakeTo(u, s, i + 1);
    } else {
      SettledLast(u, before, l);
    }
  }

  lemma {:induction false} SettledTo(u: Unicode, s: string, n: nat)
    requires KnowsASCII(u) && n <= |s|
    ensures n > 0 ==> SnakeTo(u, s, n) != [] && SnakeTo(u, s, n)[|SnakeTo(u, s, n)| - 1] == Lowered(u, s[n - 1])
    ensures Settled(u, SnakeTo(u, s, n)) <==> forall i :: 0 <= i < n ==> StaysPut(u, s, i)
  {
    if n > 0 {
      SettledTo(u, s, n - 1);
      SettledStep(u, s, n - 1);
    }
  }

  /** Converting a topic twice changes nothing exactly when each of its characters stays put. */
  lemma SnakeIsIdempotent(u: Unicode, s: string)
    requires KnowsASCII(u)
    ensures Snake(u, Snake(u, s)) == Snake(u, s) <==> forall i :: 0 <= i < |s| ==> StaysPut(u, s, i)
  {
    FixedExactly(u, Snake(u, s));
    SettledTo(u, s, |s|);
  }

  /** In particular when every capital has a lower-case form that is no capital. */
  predicate HasLowerCase(u: Unicode, s: string) {
    forall i :: 0 <= i < |s| && u.isUpper(s[i]) ==> !u.isUpper(u.toLower(s[i]))
  }

  predicate NoUpper(u: Unicode, s: string) {
    forall i :: 0 <= i < |s| ==> !u.isUpper(s[i])
  }

  lemma {:induction false} SnakeHasNoUpper(u: Unicode, s: string, n: nat)
    requires KnowsASCII(u) && n <= |s| && HasLowerCase(u, s)
    ensures NoUpper(u, SnakeTo(u, s, n))
  {
    if n > 0 {
      SnakeHasNoUpper(u, s, n - 1);
      assert !u.isUpper(SEPARATOR);
    }
  }

  lemma LowerCaseSuffices(u: Unicode, s: string)
    requires KnowsASCII(u) && HasLowerCase(u, s)
    ensures Snake(u, Snake(u, s)) == Snake(u, s)
  {
    SnakeIsIdempotent(u, s);
  }

  /** For ASCII topics always. */
  lemma ASCIIIsIdempotent(u: Unicode, s: string)
    requires KnowsASCII(u) && forall i :: 0 <= i < |s| ==> s[i] as int < 128
    ensures Snake(u, Snake(u, s)) == Snake(u, s) && NoUpper(u, Snake(u, s))
  {
    assert HasLowerCase(u, s) by {
      forall i | 0 <= i < |s| && u.isUpper(s[i])
        ensures !u.isUpper(u.toLower(s[i]))
      {
        assert 'A' <= s[i] <= 'Z';
        assert u.toLower(s[i]) as int < 128;
      }
    }
    SnakeHasNoUpper(u, s, |s|);
    LowerCaseSuffices(u, s);
  }

  /** But not with a capital like U+03D2 that is its own lower case: it becomes a hump the second time. */
  lemma CapitalWithoutLowerCase(u: Unicode, upsilon: char)
    requires KnowsASCII(u) && u.isUpper(upsilon) && u.toLower(upsilon) == upsilon
    ensures !StaysPut(u, ['A', upsilon], 1)
    ensures Snake(u, ['A', upsilon]) == ['a', upsilon] && Snake(u, ['a', upsilon]) == ['a', SEPARATOR, upsilon]
  {
    assert u.isUpper('A') && !u.isLower('A') && u.toLower('A') == 'a' && !u.isUpper('a') && u.isLower('a');
    assert SnakeTo(u, ['A', upsilon], 1) == "" + ['a'];
    assert SnakeTo(u, ['a', upsilon], 1) == "" + ['a'];
  }

  lemma {:induction false} SnakePrefix(u: Unicode, s: string, t: string, n: nat)
    requires n <= |s|
    ensures SnakeTo(u, s + t, n) == SnakeTo(u, s, n)
  {
    if n > 0 {
      SnakePrefix(u, s, t, n - 1);
    }
  }

  lemma {:induction false} SnakeAppend(u: Unicode, s: string, t: string, n: nat)
    requires n <= |t| && NoUpper(u, t)
    ensures SnakeTo(u, s + t, |s| + n) == Snake(u, s) + t[..n]
  {
    if n == 0 {
      SnakePrefix(u, s, t, |s|);
    } else {
      SnakeAppend(u, s, t, n - 1);
      assert (s + t)[|s| + n - 1] == t[n - 1];
      assert SnakeAt(u, s + t, |s| + n - 1) == [t[n - 1]];
    }
  }

  // ---------------------------------------------------------------- round trip

  lemma PowTwo32()
    ensures Pow(2, 32) == UINT32_BOUND
  {
    assert Pow(2, 8) == 256;
    PowAdd(2, 8, 8);
    PowAdd(2, 16, 16);
  }

  lemma FormatFits(shardID: uint32)
    ensures ParseUint(Format(shardID), 32) == Some(shardID)
  {
    ValueFormat(shardID);
    PowTwo32();
  }

  lemma DigitsHaveNoSeparator(s: string)
    requires AllDigits(s)
    ensures SEPARATOR !in s
  {
  }

  lemma SplitExtended(topic: string, shardID: uint32)
    ensures SplitTopicAndShardID(ExtendTopicWithShardID(topic, shardID)) == (topic, Format(shardID))
  {
    var digits := Format(shardID);
    DigitsHaveNoSeparator(digits);
    SplitWhole(digits, SEPARATOR);
    SplitAppend(topic, digits, SEPARATOR);
    JoinSplit(topic, SEPARATOR);
    FormatFits(shardID);
    var split := Split(topic, SEPARATOR) + [digits];
    assert split[..|split| - 1] == Split(topic, SEPARATOR);
  }

  lemma SnakeExtended(u: Unicode, topic: string, shardID: uint32)
    requires KnowsASCII(u)
    ensures Snake(u, ExtendTopicWithShardID(topic, shardID)) == ExtendTopicWithShardID(Snake(u, topic), shardID)
  {
    var suffix := [SEPARATOR] + Format(shardID);
    assert topic + [SEPARATOR] + Format(shardID) == topic + suffix;
    assert NoUpper(u, suffix);
    SnakeAppend(u, topic, suffix, |suffix|);
    assert Snake(u, topic) + suffix == Snake(u, topic) + [SEPARATOR] + Format(shardID);
  }

  /** A topic that does not end in a shard behind an underscore goes without one. */
  lemma NoShard(topic: string, last: string)
    requires SEPARATOR !in last && (last == "" || !AllDigits(last) || Value(last) >= UINT32_BOUND)
    ensures SplitTopicAndShardID(topic + [SEPARATOR] + last) == (topic + [SEPARATOR] + last, "#")
    ensures SplitTopicAndShardID(last) == (last, "#")
  {
    SplitAppend(topic, last, SEPARATOR);
    SplitWhole(last, SEPARATOR);
    PowTwo32();
  }

  /** Nor does one without any underscore, a bare number included. */
  lemma NoSeparator(topic: string)
    requires '_' !in topic
    ensures SplitTopicAndShardID(topic) == (topic, "#")
  {
    SplitWhole(topic, SEPARATOR);
  }

  /** Every topic, underscores and all, comes back in snake case together with its shard. */
  lemma TopicRoundTrip(u: Unicode, topic: string, shardID: uint32)
    requires KnowsASCII(u)
    ensures SplitTopicAndShardID(Snake(u, ExtendTopicWithShardID(topic, shardID))) == (Snake(u, topic), Format(shardID))
  {
    SnakeExtended(u, topic, shardID);
    SplitExtended(Snake(u, topic), shardID);
  }

  /** What is reported back determines what was recorded: equal keys mean equal snake topics and shards. */
  lemma KeysAreFaithful(u: Unicode, s: string, t: string, a: uint32, b: uint32)
    requires KnowsASCII(u)
    requires Snake(u, ExtendTopicWithShardID(s, a)) == Snake(u, ExtendTopicWithShardID(t, b))
    ensures Snake(u, s) == Snake(u, t) && a == b
  {
    TopicRoundTrip(u, s, a);
    TopicRoundTrip(u, t, b);
    ValueFormat(a);
    ValueFormat(b);
  }
}
