/** Channel names and channel patterns (zcm/nonblocking.c, zcm/blocking.cpp): which names count as
    patterns, which patterns the non-blocking engine supports, and the two ways of matching a
    message's channel against a subscription. */
module Channels {

  const CHANNEL_MAXLEN := 32

  /** A C string: no NUL inside. */
  type Channel = s: string | '\0' !in s

  /** The longest prefix of at most n characters, what strncpy keeps. */
  function Take(s: Channel, n: nat): (r: Channel) {
    if |s| <= n then s else s[..n]
  }

  /** strncmp(a, b, n) == 0 */
  predicate SameUpTo(a: Channel, b: Channel, n: nat) {
    Take(a, n) == Take(b, n)
  }

  predicate RegexChar(c: char) {
    c in {'(', ')', '|', '.', '*', '+'}
  }

  predicate WordChar(c: char) {
    'a' <= c <= 'z' || 'A' <= c <= 'Z' || '0' <= c <= '9' || c == '_'
  }

  /** isRegexChannel */
  method IsRegexChannel(c: Channel) returns (r: bool)
    ensures r <==> IsRegex(c)
  {
    var i := 0;
    while i < |c|
      invariant i <= |c| && forall k | 0 <= k < i :: !RegexChar(c[k])
    {
      if RegexChar(c[i]) { return true; }
      i := i + 1;
    }
    return false;
  }

  predicate IsRegex(c: Channel) {
    exists i | 0 <= i < |c| :: RegexChar(c[i])
  }

  /** isSupportedRegex */
  method IsSupportedRegex(c: Channel) returns (r: bool)
    ensures r <==> !IsRegex(c) || Supported(c)
  {
    var regex := IsRegexChannel(c);
    if !regex { return true; }
    if |c| < 2 { return false; }
    if c[|c| - 1] != '*' { return false; }
    if c[|c| - 2] != '.' { return false; }
    var i := 0;
    while i < |c| - 2
      invariant i <= |c| - 2 && forall k | 0 <= k < i :: WordChar(c[k])
    {
      if !WordChar(c[i]) { return false; }
      i := i + 1;
    }
    return true;
  }

  /** A pattern of the form "word characters, then .*". */
  predicate Supported(c: Channel) {
    |c| >= 2 && c[|c| - 2..] == ".*" && forall i | 0 <= i < |c| - 2 :: WordChar(c[i])
  }

  /** The test dispatch_message makes for one subscription: a prefix for a pattern, a bounded
      comparison for a plain name. */
  predicate PrefixMatch(pattern: Channel, channel: Channel) {
    if IsRegex(pattern) then |pattern| >= 2 && SameUpTo(pattern, channel, |pattern| - 2)
    else SameUpTo(pattern, channel, CHANNEL_MAXLEN)
  }

  /* ---------- regular expressions ---------- */

  datatype Regex =
    | Empty
    | Literal(c: char)
    | AnyChar
    | Cat(first: Regex, second: Regex)
    | Star(body: Regex)

  /** In the grammar of std::regex a dot matches no line terminator. */
  predicate LineTerminator(c: char) {
    c == '\n' || c == '\r'
  }

  /** regex_match: the whole text, by the meaning of each operator. */
  predicate Matches(r: Regex, s: string)
    decreases r, |s|
  {
    match r
    case Empty => s == []
    case Literal(c) => s == [c]
    case AnyChar => |s| == 1 && !LineTerminator(s[0])
    case Cat(a, b) => exists k | 0 <= k <= |s| :: Matches(a, s[..k]) && Matches(b, s[k..])
    case Star(a) => s == [] || exists k | 0 < k <= |s| :: Matches(a, s[..k]) && Matches(Star(a), s[k..])
  }

  /** How a pattern of literals, dots and stars is read. */
  function Parse(p: string): Regex {
    if p == [] then Empty
    else
      var atom := if p[0] == '.' then AnyChar else Literal(p[0]);
      if |p| > 1 && p[1] == '*' then Cat(Star(atom), Parse(p[2..])) else Cat(atom, Parse(p[1..]))
  }

  /** The blocking engine's test: an exact name or a full match. */
  predicate FullMatch(pattern: Channel, channel: Channel) {
    if IsRegex(pattern) then Matches(Parse(pattern), channel) else pattern == channel
  }

  predicate NoLineTerminators(s: string) {
    forall i | 0 <= i < |s| :: !LineTerminator(s[i])
  }

  lemma {:induction false} DotStar(s: string)
    ensures Matches(Star(AnyChar), s) <==> NoLineTerminators(s)
    decreases |s|
  {
    if s != [] {
      DotStar(s[1..]);
      assert s[..1] == [s[0]];
      if NoLineTerminators(s) {
        assert Matches(AnyChar, s[..1]) && Matches(Star(AnyChar), s[1..]);
      }
      if Matches(Star(AnyChar), s) {
        var k :| 0 < k <= |s| && Matches(AnyChar, s[..k]) && Matches(Star(AnyChar), s[k..]);
        assert k == 1;
        forall i | 0 <= i < |s| ensures !LineTerminator(s[i]) {
          if i > 0 { assert s[i] == s[1..][i - 1]; }
        }
      }
    }
  }

  lemma CatEmpty(r: Regex, s: string)
    ensures Matches(Cat(r, Empty), s) <==> Matches(r, s)
  {
    assert s[..|s|] == s;
    if Matches(r, s) { assert Matches(r, s[..|s|]) && Matches(Empty, s[|s|..]); }
    if Matches(Cat(r, Empty), s) {
      var k :| 0 <= k <= |s| && Matches(r, s[..k]) && Matches(Empty, s[k..]);
      assert k == |s|;
    }
  }

  lemma CatLiteral(c: char, r: Regex, s: string)
    ensures Matches(Cat(Literal(c), r), s) <==> s != [] && s[0] == c && Matches(r, s[1..])
  {
    if s != [] && s[0] == c && Matches(r, s[1..]) {
      assert s[..1] == [c];
      assert Matches(Literal(c), s[..1]) && Matches(r, s[1..]);
    }
    if Matches(Cat(Literal(c), r), s) {
      var k :| 0 <= k <= |s| && Matches(Literal(c), s[..k]) && Matches(r, s[k..]);
      assert k == 1 && s[..1][0] == c;
    }
  }

  /** A word followed by ".*" matches exactly the texts that start with the word and go on without
      a line terminator. */
  lemma {:induction false} SupportedMeaning(word: string, s: string)
    requires forall i | 0 <= i < |word| :: WordChar(word[i])
    ensures Matches(Parse(word + ".*"), s) <==> word <= s && NoLineTerminators(s[|word|..])
    decreases |word|
  {
    var p := word + ".*";
    if word == [] {
      assert p == ".*" && p[2..] == [] && Parse(p) == Cat(Star(AnyChar), Empty) && s[0..] == s;
      CatEmpty(Star(AnyChar), s);
      DotStar(s);
    } else {
      var rest := word[1..];
      assert p[1..] == rest + ".*" && p[0] == word[0] && p[1] == (rest + ".*")[0];
      assert p[1] != '*' by { if rest != [] { assert p[1] == word[1]; } }
      assert Parse(p) == Cat(Literal(word[0]), Parse(rest + ".*"));
      CatLiteral(word[0], Parse(rest + ".*"), s);
      if s != [] {
        SupportedMeaning(rest, s[1..]);
        assert s == [s[0]] + s[1..] && word == [word[0]] + rest;
        if s[0] == word[0] {
          assert word <= s <==> rest <= s[1..];
          assert word <= s ==> s[1..][|rest|..] == s[|word|..];
        }
      }
    }
  }

  /** The two tests agree on a subscription and a message exactly when the message's channel does not
      continue a matching pattern with a line terminator, and does not continue a plain name of full
      length. */
  lemma MatchersAgree(pattern: Channel, channel: Channel)
    requires |pattern| <= CHANNEL_MAXLEN && (IsRegex(pattern) ==> Supported(pattern))
    ensures (PrefixMatch(pattern, channel) <==> FullMatch(pattern, channel))
            <==> !(if IsRegex(pattern)
                   then pattern[..|pattern| - 2] <= channel && !NoLineTerminators(channel[|pattern| - 2..])
                   else |pattern| == CHANNEL_MAXLEN < |channel| && pattern <= channel)
  {
    if IsRegex(pattern) {
      var word := pattern[..|pattern| - 2];
      assert pattern == word + ".*";
      SupportedMeaning(word, channel);
      assert Take(word, |word|) == word;
      assert PrefixMatch(pattern, channel) <==> word <= channel;
    } else {
      assert pattern <= channel ==> channel[..|pattern|] == pattern;
    }
  }

  /** So on every channel the system accepts without line terminators they agree. */
  lemma MatchersAgreeOnNames(pattern: Channel, channel: Channel)
    requires |pattern| <= CHANNEL_MAXLEN && (IsRegex(pattern) ==> Supported(pattern))
    requires |channel| <= CHANNEL_MAXLEN && NoLineTerminators(channel)
    ensures PrefixMatch(pattern, channel) <==> FullMatch(pattern, channel)
  {
    MatchersAgree(pattern, channel);
  }

  /** A line terminator tells them apart. */
  lemma LineTerminatorTellsApart()
    ensures PrefixMatch("A.*", "A\n") && !FullMatch("A.*", "A\n")
  {
    var pattern: Channel, channel: Channel := "A.*", "A\n";
    assert RegexChar(pattern[1]);
    assert pattern[1..] == ".*" && pattern[..1] == "A" && channel[..1] == "A" && LineTerminator(channel[1]);
    MatchersAgree(pattern, channel);
    assert channel[1..][0] == channel[1];
  }
}
