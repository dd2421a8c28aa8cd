/** The token-level vocabulary of the parser: the three patterns the parser
    compiles when it is set up (an optional "name=value" token, a float and an
    int), each written once as a hand-written recogniser and once as the regular
    expression's grammar reads it, with a lemma that the two agree; and the
    std::string searches the passes use. */
module Lexical {

  // ---------------------------------------------------------------------------
  // std::string searches

  /** s.find(c), with |s| standing for npos. */
  function FirstIndexOf(s: string, c: char): (i: nat)
    ensures i <= |s|
    ensures i < |s| ==> s[i] == c
    ensures forall j :: 0 <= j < i ==> s[j] != c
  {
    if |s| == 0 then 0
    else if s[0] == c then 0
    else 1 + FirstIndexOf(s[1..], c)
  }

  /** s.rfind(c), with -1 standing for npos. */
  function LastIndexOf(s: string, c: char): (i: int)
    ensures -1 <= i < |s|
    ensures 0 <= i ==> s[i] == c
    ensures forall j :: i < j < |s| ==> s[j] != c
    decreases |s|
  {
    if |s| == 0 then -1
    else if s[|s| - 1] == c then |s| - 1
    else LastIndexOf(s[..|s| - 1], c)
  }

  /** s.find('-') == 0: npos, the empty string's answer, is not 0. */
  predicate StartsWithDash(s: string): (b: bool)
    ensures b <==> 0 < |s| && FirstIndexOf(s, '-') == 0
  {
    |s| > 0 && s[0] == '-'
  }

  /** What is left of s once every leading '-' is erased. */
  function StripDashes(s: string): (r: string)
    ensures |r| <= |s| && r == s[|s| - |r|..]
    ensures forall i :: 0 <= i < |s| - |r| ==> s[i] == '-'
    ensures !StartsWithDash(r)
  {
    if StartsWithDash(s) then StripDashes(s[1..]) else s
  }

  /** The run of one or two dashes that opens an optional token. */
  function Dashes(d: nat): string
    requires 1 <= d <= 2
  {
    if d == 1 then "-" else "--"
  }

  // ---------------------------------------------------------------------------
  // The optional-argument pattern
  //   ^-{1,2}([a-zA-z0-9]-{0,1}){0,}[a-zA-z0-9]+=(('[\w\W]+')|("[\w\W]+")|([\w\W]+))$

  /** [a-zA-z0-9]: the range A-z also takes in the six characters [ \ ] ^ _ ` */
  predicate IsNameChar(c: char)
  {
    '0' <= c <= '9' || 'A' <= c <= 'z'
  }

  predicate AllNameChars(s: string)
  {
    forall i :: 0 <= i < |s| ==> IsNameChar(s[i])
  }

  /** The name between the dashes and the '=': name characters and single
      hyphens, starting and ending with a name character. */
  predicate IsName(s: string)
  {
    && |s| > 0
    && IsNameChar(s[0])
    && IsNameChar(s[|s| - 1])
    && (forall i :: 0 <= i < |s| ==> IsNameChar(s[i]) || s[i] == '-')
    && (forall i :: 0 <= i < |s| - 1 ==> s[i] == '-' ==> s[i + 1] != '-')
  }

  /** ([a-zA-z0-9]-{0,1}){0,}[a-zA-z0-9]+ as the grammar of the regex builds it:
      a final run of name characters, or a unit "c" or "c-" before the rest. */
  predicate NameByRegex(s: string)
    decreases |s|
  {
    || (|s| > 0 && AllNameChars(s))
    || (|s| > 1 && IsNameChar(s[0]) && NameByRegex(s[1..]))
    || (|s| > 2 && IsNameChar(s[0]) && s[1] == '-' && NameByRegex(s[2..]))
  }

  lemma {:induction false} NameByRegexIsName(s: string)
    ensures NameByRegex(s) <==> IsName(s)
    decreases |s|
  {
    if |s| > 1 { NameByRegexIsName(s[1..]); }
    if |s| > 2 { NameByRegexIsName(s[2..]); }
    if IsName(s) {
      if |s| == 1 {
        assert AllNameChars(s);
      } else if s[1] == '-' {
        assert IsName(s[2..]);
      } else {
        assert IsName(s[1..]);
      }
    }
    if NameByRegex(s) && !(|s| > 0 && AllNameChars(s)) {
      if |s| > 1 && IsNameChar(s[0]) && NameByRegex(s[1..]) {
        assert IsName(s[1..]);
        forall i | 0 <= i < |s| - 1 && s[i] == '-' ensures s[i + 1] != '-' {
          assert s[1..][i - 1] == s[i];
        }
      } else {
        assert IsName(s[2..]);
        forall i | 0 <= i < |s| - 1 && s[i] == '-' ensures s[i + 1] != '-' {
          if i >= 2 { assert s[2..][i - 2] == s[i]; }
        }
      }
    }
  }

  /** ('[\w\W]+')|("[\w\W]+")|([\w\W]+): [\w\W] is any character at all. */
  predicate ValueByRegex(v: string)
  {
    || (|v| >= 3 && v[0] == '\'' && v[|v| - 1] == '\'')
    || (|v| >= 3 && v[0] == '"' && v[|v| - 1] == '"')
    || |v| >= 1
  }

  /** The quoted alternatives add nothing: any non-empty value matches. */
  lemma ValueByRegexIsNonEmpty(v: string)
    ensures ValueByRegex(v) <==> |v| > 0
  {
  }

  /** One or two dashes followed by a name. */
  predicate IsDashedName(s: string)
  {
    && |s| >= 2
    && s[0] == '-'
    && (if s[1] == '-' then IsName(s[2..]) else IsName(s[1..]))
  }

  /** is_optional: a dashed name, then '=' and a non-empty value. A name never
      holds '=', so the first '=' is the one that ends it. */
  predicate IsOptional(t: string): (b: bool)
    ensures b ==> |t| >= 4 && t[0] == '-' && '=' in t
  {
    var e := FirstIndexOf(t, '=');
    e + 1 < |t| && IsDashedName(t[..e])
  }

  /** The whole pattern as the regex reads it, over every placement of the
      dash run and of the '='. */
  ghost predicate OptionalByRegex(t: string)
  {
    exists d, e :: 1 <= d <= 2 && d < e < |t| && t[..d] == Dashes(d)
                   && NameByRegex(t[d..e]) && t[e] == '=' && ValueByRegex(t[e + 1..])
  }

  lemma NameHasNoEquals(s: string)
    requires IsName(s)
    ensures forall i :: 0 <= i < |s| ==> s[i] != '='
  {
  }

  lemma IsOptionalByRegex(t: string)
    ensures IsOptional(t) <==> OptionalByRegex(t)
  {
    if IsOptional(t) {
      OptionalIsRegex(t);
    }
    if OptionalByRegex(t) {
      RegexIsOptional(t);
    }
  }

  lemma OptionalIsRegex(t: string)
    requires IsOptional(t)
    ensures OptionalByRegex(t)
  {
    var e := FirstIndexOf(t, '=');
    var d := if t[1] == '-' then 2 else 1;
    assert t[..e][d..] == t[d..e];
    NameByRegexIsName(t[d..e]);
    ValueByRegexIsNonEmpty(t[e + 1..]);
    assert t[..d] == Dashes(d);
  }

  lemma RegexIsOptional(t: string)
    requires OptionalByRegex(t)
    ensures IsOptional(t)
  {
    var d, e :| 1 <= d <= 2 && d < e < |t| && t[..d] == Dashes(d)
                && NameByRegex(t[d..e]) && t[e] == '=' && ValueByRegex(t[e + 1..]);
    NameByRegexIsName(t[d..e]);
    NameHasNoEquals(t[d..e]);
    forall j | 0 <= j < e ensures t[j] != '=' {
      if j < d { assert t[..d][j] == '-'; } else { assert t[d..e][j - d] == t[j]; }
    }
    assert FirstIndexOf(t, '=') == e;
    assert t[0] == t[..d][0];
    if d == 2 {
      assert t[1] == t[..d][1];
      assert t[..e][2..] == t[d..e];
    } else {
      assert t[1] == t[d..e][0];
      assert t[..e][1..] == t[d..e];
    }
  }

  /** find skips a prefix that does not hold the character. */
  lemma {:induction false} FirstIndexOfAfter(pre: string, rest: string, c: char)
    requires c !in pre
    ensures FirstIndexOf(pre + rest, c) == |pre| + FirstIndexOf(rest, c)
  {
    if |pre| > 0 {
      assert (pre + rest)[1..] == pre[1..] + rest;
      FirstIndexOfAfter(pre[1..], rest, c);
    } else {
      assert pre + rest == rest;
    }
  }

  /** Every token built from dashes, a name, '=' and a non-empty value is an
      optional token, and its first '=' is the one after the name. */
  lemma OptionalFromParts(d: nat, n: string, v: string)
    requires 1 <= d <= 2 && IsName(n) && |v| > 0
    ensures IsOptional(Dashes(d) + n + "=" + v)
    ensures FirstIndexOf(Dashes(d) + n + "=" + v, '=') == d + |n|
  {
    var pre := Dashes(d) + n;
    DashedNameHasNoEquals(d, n);
    FirstIndexOfAfterPrefix(pre, v);
    PrefixBeforeEquals(pre, v);
    DashedNameOf(d, n);
  }

  lemma PrefixBeforeEquals(pre: string, v: string)
    ensures (pre + "=" + v)[..|pre|] == pre
  {
    assert pre + "=" + v == pre + ("=" + v);
  }

  lemma DashedNameHasNoEquals(d: nat, n: string)
    requires 1 <= d <= 2 && IsName(n)
    ensures '=' !in Dashes(d) + n
  {
    var pre := Dashes(d) + n;
    NameHasNoEquals(n);
    forall i | 0 <= i < |pre| ensures pre[i] != '=' {
      if i >= d { assert pre[i] == n[i - d]; }
    }
  }

  lemma FirstIndexOfAfterPrefix(pre: string, v: string)
    requires '=' !in pre
    ensures FirstIndexOf(pre + "=" + v, '=') == |pre|
  {
    FirstIndexOfAfter(pre, "=" + v, '=');
    assert pre + "=" + v == pre + ("=" + v);
  }

  lemma DashedNameOf(d: nat, n: string)
    requires 1 <= d <= 2 && IsName(n)
    ensures IsDashedName(Dashes(d) + n)
  {
    var pre := Dashes(d) + n;
    if d == 2 {
      assert pre[1] == '-';
      assert pre[2..] == n;
    } else {
      assert pre[1] == n[0];
      assert pre[1..] == n;
    }
  }

  /** Erasing the leading dashes of a dashed name gives the name back. */
  lemma StripDashedName(d: nat, n: string)
    requires 1 <= d <= 2 && IsName(n)
    ensures StripDashes(Dashes(d) + n) == n
  {
    var s := Dashes(d) + n;
    assert !StartsWithDash(n);
    assert StripDashes(n) == n;
    assert StripDashes(s) == StripDashes(s[1..]);
    if d == 1 {
      assert s[1..] == n;
    } else {
      assert s[1..][1..] == n;
      assert StripDashes(s[1..]) == StripDashes(s[1..][1..]);
    }
  }

  // ---------------------------------------------------------------------------
  // The numeric patterns

  predicate IsDigit(c: char)
  {
    '0' <= c <= '9'
  }

  predicate AllDigits(s: string)
  {
    forall i :: 0 <= i < |s| ==> IsDigit(s[i])
  }

  /** ^[0-9]+$: a non-empty string that is one run of digits. */
  predicate IsIntLexeme(s: string): (b: bool)
    ensures b ==> |s| > 0 && IsDigit(s[0]) && IsDigit(s[|s| - 1])
  {
    |s| > 0 && AllDigits(s)
  }

  /** The characters an ECMAScript '.' does not match. */
  predicate IsLineTerminator(c: char)
  {
    c == '\n' || c == '\r'
  }

  /** ^(([0-9]+)|([0-9]+.[0-9]+))$ as the regex reads it; the '.' is not
      escaped, so it stands for any one character but a line terminator. */
  ghost predicate FloatByRegex(s: string)
  {
    || IsIntLexeme(s)
    || exists i :: 0 < i < |s| - 1 && IsIntLexeme(s[..i]) && !IsLineTerminator(s[i])
                   && IsIntLexeme(s[i + 1..])
  }

  /** The length of the run of digits that opens s. */
  function LeadingDigits(s: string): (n: nat)
    ensures n <= |s| && AllDigits(s[..n])
    ensures n < |s| ==> !IsDigit(s[n])
  {
    if |s| == 0 || !IsDigit(s[0]) then 0
    else
      var m := LeadingDigits(s[1..]);
      assert s[..m + 1] == [s[0]] + s[1..][..m];
      m + 1
  }

  /** The float pattern as a hand-written recogniser: digits, and if anything
      follows them, one character (a line terminator excepted) and more digits. */
  predicate IsFloatLexeme(s: string): (b: bool)
    ensures b ==> |s| > 0 && IsDigit(s[0]) && IsDigit(s[|s| - 1])
  {
    var p := LeadingDigits(s);
    p > 0 && (p == |s| || (p + 1 < |s| && !IsLineTerminator(s[p]) && IsIntLexeme(s[p + 1..])))
  }

  lemma {:induction false} LeadingDigitsAtLeast(s: string, i: nat)
    requires i <= |s| && AllDigits(s[..i])
    ensures LeadingDigits(s) >= i
  {
    if i > 0 {
      assert s[..i][0] == s[0];
      assert s[1..][..i - 1] == s[..i][1..];
      LeadingDigitsAtLeast(s[1..], i - 1);
    }
  }

  lemma FloatLexemeByRegex(s: string)
    ensures IsFloatLexeme(s) <==> FloatByRegex(s)
  {
    if IsFloatLexeme(s) {
      FloatLexemeIsRegex(s);
    }
    if FloatByRegex(s) {
      RegexIsFloatLexeme(s);
    }
  }

  lemma FloatLexemeIsRegex(s: string)
    requires IsFloatLexeme(s)
    ensures FloatByRegex(s)
  {
    var p := LeadingDigits(s);
    if p == |s| {
      assert s[..p] == s;
    } else {
      assert s[..p][0] == s[0];
      assert IsIntLexeme(s[..p]);
    }
  }

  lemma RegexIsFloatLexeme(s: string)
    requires FloatByRegex(s)
    ensures IsFloatLexeme(s)
  {
    if IsIntLexeme(s) {
      IntLexemeIsFloatLexeme(s);
    } else {
      var i :| 0 < i < |s| - 1 && IsIntLexeme(s[..i]) && !IsLineTerminator(s[i])
               && IsIntLexeme(s[i + 1..]);
      SplitIsFloatLexeme(s, i);
    }
  }

  /** Digits, a character at i that is no line terminator, then digits. */
  lemma SplitIsFloatLexeme(s: string, i: nat)
    requires 0 < i < |s| - 1 && AllDigits(s[..i]) && !IsLineTerminator(s[i])
    requires AllDigits(s[i + 1..])
    ensures IsFloatLexeme(s)
  {
    var p := LeadingDigits(s);
    LeadingDigitsAtLeast(s, i);
    DigitsAround(s, i);
    if IsDigit(s[i]) {
      assert AllDigits(s);
      assert IsFloatLexeme(s) by { IntLexemeIsFloatLexeme(s); }
    } else {
      assert p == i;
      assert IsIntLexeme(s[p + 1..]);
    }
  }

  /** Digits before and after a digit at i make s all digits. */
  lemma DigitsAround(s: string, i: nat)
    ensures i < |s| && AllDigits(s[..i]) && IsDigit(s[i]) && AllDigits(s[i + 1..]) ==> AllDigits(s)
  {
    if i < |s| && AllDigits(s[..i]) && IsDigit(s[i]) && AllDigits(s[i + 1..]) {
      forall j | 0 <= j < |s| ensures IsDigit(s[j]) {
        if j < i { assert s[..i][j] == s[j]; }
        else if j > i { assert s[i + 1..][j - i - 1] == s[j]; }
      }
    }
  }

  /** An int lexeme also passes the float check. */
  lemma IntLexemeIsFloatLexeme(s: string)
    requires IsIntLexeme(s)
    ensures IsFloatLexeme(s)
  {
    assert s[..|s|] == s;
    LeadingDigitsAtLeast(s, |s|);
  }

  function DigitValue(c: char): nat
    requires IsDigit(c)
  {
    (c - '0') as nat
  }

  /** The mathematical value of a run of decimal digits. */
  function DigitsValue(s: string): nat
    requires AllDigits(s)
  {
    if |s| == 0 then 0 else 10 * DigitsValue(s[..|s| - 1]) + DigitValue(s[|s| - 1])
  }

  /** INT_MAX for a 32-bit int. */
  const IntMax: int := 0x7fff_ffff

  /** What `std::istringstream >> int` stores for an int lexeme: its value, or
      INT_MAX when the value does not fit (the C++11 rule for num_get). */
  function IntValue(s: string): (v: int)
    requires IsIntLexeme(s)
    ensures 0 <= v <= IntMax
    ensures DigitsValue(s) <= IntMax ==> v == DigitsValue(s)
    ensures DigitsValue(s) > IntMax ==> v == IntMax
  {
    if DigitsValue(s) > IntMax then IntMax else DigitsValue(s)
  }

  /** A leading zero adds nothing to the value of a digit run. */
  lemma {:induction false} LeadingZeroDigits(s: string)
    requires AllDigits(s)
    ensures AllDigits("0" + s) && DigitsValue("0" + s) == DigitsValue(s)
  {
    if |s| > 0 {
      var t := "0" + s;
      assert t[..|t| - 1] == "0" + s[..|s| - 1];
      LeadingZeroDigits(s[..|s| - 1]);
    }
  }

  /** "007" reads as 7: leading zeros do not change what is stored. */
  lemma IntValueIgnoresLeadingZero(s: string)
    requires IsIntLexeme(s)
    ensures IsIntLexeme("0" + s) && IntValue("0" + s) == IntValue(s)
  {
    LeadingZeroDigits(s);
  }

  /** The decimal spelling of n without sign or leading zeros. */
  function DecimalString(n: nat): (s: string)
    ensures IsIntLexeme(s)
  {
    if n < 10 then ['0' + n as char]
    else DecimalString(n / 10) + ['0' + (n % 10) as char]
  }

  lemma {:induction false} DigitsRoundTrip(n: nat)
    ensures DigitsValue(DecimalString(n)) == n
  {
    if n >= 10 {
      var s := DecimalString(n);
      assert s[..|s| - 1] == DecimalString(n / 10);
      DigitsRoundTrip(n / 10);
    }
  }

  /** Reading back the decimal spelling of an int gives the int. */
  lemma IntRoundTrip(n: nat)
    requires n <= IntMax
    ensures IntValue(DecimalString(n)) == n
  {
    DigitsRoundTrip(n);
  }
}
