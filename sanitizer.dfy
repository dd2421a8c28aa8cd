/** What parse_args does to the raw argument vector before binding: the
    executable name taken from argv[0], and the canonical token sequence
    (name=value tokens split in two, single quotes stripped). */
module Sanitizer {
  import opened Lexical

  // ---------------------------------------------------------------------------
  // Executable name

  /** The part of s after its last separator; all of s if it has none. */
  function BaseName(s: string, sep: char): (r: string)
    ensures sep !in r
    ensures |r| <= |s| && r == s[|s| - |r|..]
    ensures |r| < |s| ==> s[|s| - |r| - 1] == sep
    ensures sep !in s ==> r == s
  {
    var i := LastIndexOf(s, sep);
    assert |s[i + 1..]| == |s| - (i + 1);
    s[i + 1..]
  }

  /** The three properties pin the base name down: a suffix free of the
      separator that is all of s or follows a separator. */
  lemma BaseNameUnique(s: string, sep: char, r: string)
    requires sep !in r && |r| <= |s| && r == s[|s| - |r|..]
    requires |r| < |s| ==> s[|s| - |r| - 1] == sep
    ensures r == BaseName(s, sep)
  {
    var b := BaseName(s, sep);
    if |b| < |r| {
      assert false;
    } else if |r| < |b| {
      assert false;
    }
  }

  /** Cutting s after one of its separators leaves its base name as it was. */
  lemma BaseNameAfterSep(s: string, sep: char, i: nat)
    requires i < |s| && s[i] == sep
    ensures BaseName(s[i + 1..], sep) == BaseName(s, sep)
  {
    var t := s[i + 1..];
    var r := BaseName(t, sep);
    assert sep !in r && |r| <= |t|;
    assert r == s[|s| - |r|..] by {
      assert t[|t| - |r|..] == s[|s| - |r|..];
    }
    assert s[|s| - |r| - 1] == sep by {
      if |r| < |t| {
        assert s[|s| - |r| - 1] == t[|t| - |r| - 1];
      }
    }
    BaseNameUnique(s, sep, r);
  }

  // ---------------------------------------------------------------------------
  // Splitting name=value tokens

  /** One raw token as the first loop of the sanitizer emits it: an optional
      token is cut at its first '=', anything else passes through. */
  function SplitToken(t: string): (r: seq<string>)
    ensures |r| == (if IsOptional(t) then 2 else 1)
    ensures |r| == 2 ==> t == r[0] + "=" + r[1] && IsDashedName(r[0]) && |r[1]| > 0
    ensures |r| == 1 ==> r[0] == t
  {
    if IsOptional(t) then
      var e := FirstIndexOf(t, '=');
      assert t == t[..e] + "=" + t[e + 1..];
      [t[..e], t[e + 1..]]
    else [t]
  }

  /** How many tokens of ts are optional tokens. */
  function CountOptional(ts: seq<string>): nat
  {
    if ts == [] then 0
    else CountOptional(ts[..|ts| - 1]) + (if IsOptional(ts[|ts| - 1]) then 1 else 0)
  }

  /** The tokens the first loop pushes, in order. */
  function SplitAll(ts: seq<string>): (r: seq<string>)
    ensures |r| == |ts| + CountOptional(ts)
  {
    if ts == [] then [] else SplitAll(ts[..|ts| - 1]) + SplitToken(ts[|ts| - 1])
  }

  /** Splitting one more raw token appends its parts. */
  lemma SplitAllPush(raw: seq<string>, i: nat)
    requires 1 <= i < |raw|
    ensures SplitAll(raw[1..i + 1]) == SplitAll(raw[1..i]) + SplitToken(raw[i])
  {
    assert raw[1..i + 1][..i - 1] == raw[1..i];
  }

  /** A token built from dashes, a name and a value splits back into its
      dashed name and its value. */
  lemma SplitOfParts(d: nat, n: string, v: string)
    requires 1 <= d <= 2 && IsName(n) && |v| > 0
    ensures SplitToken(Dashes(d) + n + "=" + v) == [Dashes(d) + n, v]
  {
    var t := Dashes(d) + n + "=" + v;
    OptionalFromParts(d, n, v);
    assert t[..d + |n|] == Dashes(d) + n;
    assert t[d + |n| + 1..] == v;
  }

  // ---------------------------------------------------------------------------
  // Stripping single quotes

  /** The token starts and ends with a single quote: the test the code
      writes with find_first_of and find_last_of (an empty token has no quote
      to find). */
  predicate Quoted(t: string): (b: bool)
    ensures b <==> |t| > 0 && FirstIndexOf(t, '\'') == 0 && LastIndexOf(t, '\'') == |t| - 1
  {
    |t| > 0 && t[0] == '\'' && t[|t| - 1] == '\''
  }

  /** A lone "'" would make the second erase throw std::out_of_range. */
  predicate NoLoneQuote(ts: seq<string>)
  {
    forall i :: 0 <= i < |ts| ==> ts[i] != "'"
  }

  /** Erasing the first and the last character of a quoted token. */
  function TrimQuotes(t: string): (r: string)
    requires t != "'"
    ensures Quoted(t) ==> t == "'" + r + "'"
    ensures !Quoted(t) ==> r == t
  {
    if Quoted(t) then
      assert t == [t[0]] + t[1..|t| - 1] + [t[|t| - 1]];
      t[1..|t| - 1]
    else t
  }

  /** The second loop of the sanitizer, over every token of ts. */
  function TrimAll(ts: seq<string>): (r: seq<string>)
    requires NoLoneQuote(ts)
    ensures |r| == |ts|
    ensures forall i :: 0 <= i < |ts| ==> r[i] == TrimQuotes(ts[i])
  {
    if ts == [] then [] else [TrimQuotes(ts[0])] + TrimAll(ts[1..])
  }

  /** The token sequence after a sanitize step: the tokens left by earlier
      parses, then the split raw tokens after argv[0], all of them trimmed. */
  function Sanitized(previous: seq<string>, raw: seq<string>): (r: seq<string>)
    requires |raw| > 0 && NoLoneQuote(previous + SplitAll(raw[1..]))
    ensures |r| == |previous| + |raw| - 1 + CountOptional(raw[1..])
    ensures forall i :: 0 <= i < |previous| ==> previous[i] != "'" && r[i] == TrimQuotes(previous[i])
  {
    var ts := previous + SplitAll(raw[1..]);
    assert forall i :: 0 <= i < |previous| ==> ts[i] == previous[i];
    TrimAll(ts)
  }

  /** A dashed name is never trimmed. */
  lemma TrimKeepsDashed(s: string)
    requires StartsWithDash(s)
    ensures s != "'" && TrimQuotes(s) == s
  {
    assert s[0] != '\'';
  }

  /** A value written inside single quotes loses exactly those quotes. */
  lemma TrimQuotedValue(v: string)
    ensures TrimQuotes("'" + v + "'") == v
  {
    var t := "'" + v + "'";
    assert Quoted(t);
    assert t[1..|t| - 1] == v;
  }
}
