/** The pieces of Python's string handling the launcher relies on:
    str.split() with no separator, the blank-stripping and digit rules of
    int(), and str() of an integer. */
module Text {
  import opened Errors

  /** str.isspace() of one character: the characters str.split() splits on. */
  predicate IsSpace(c: char)
  {
    || ('\t' <= c <= '\r')
    || ('\U{1C}' <= c <= ' ')
    || c == '\U{85}' || c == '\U{A0}' || c == '\U{1680}'
    || ('\U{2000}' <= c <= '\U{200A}')
    || c == '\U{2028}' || c == '\U{2029}' || c == '\U{202F}' || c == '\U{205F}' || c == '\U{3000}'
  }

  /** The blanks int() ignores around a literal. CPython's parser skips
      only the ASCII tab, line feed, vertical tab, form feed, carriage return
      and space; a non-ASCII str.isspace() character is first turned into a
      space. The ASCII separators 0x1C-0x1F, blanks to str.split(), are not
      blanks to int(). */
  predicate IsIntBlank(c: char)
  {
    ('\t' <= c <= '\r') || c == ' ' || (c >= '\U{80}' && IsSpace(c))
  }

  predicate IsDigit(c: char) { '0' <= c <= '9' }

  function DigitValue(c: char): (d: nat)
    requires IsDigit(c)
    ensures d < 10
  {
    (c as int) - ('0' as int)
  }

  function DigitChar(d: nat): (c: char)
    requires d < 10
    ensures IsDigit(c) && DigitValue(c) == d
  {
    (('0' as int) + d) as char
  }

  /** A non-empty run of characters none of which is blank. */
  predicate IsWord(w: string)
  {
    |w| > 0 && forall i :: 0 <= i < |w| ==> !IsSpace(w[i])
  }

  /** Length of the run of non-blank characters at the start of s. */
  function WordLength(s: string): (n: nat)
    ensures n <= |s|
    ensures forall i :: 0 <= i < n ==> !IsSpace(s[i])
    ensures n < |s| ==> IsSpace(s[n])
  {
    if s == [] || IsSpace(s[0]) then 0 else 1 + WordLength(s[1..])
  }

  /** str.split() without a separator: the maximal runs of non-blank
      characters, in order; blanks at either end produce nothing. */
  function Split(s: string): (words: seq<string>)
    ensures forall k :: 0 <= k < |words| ==> IsWord(words[k])
    decreases |s|
  {
    if s == [] then []
    else if IsSpace(s[0]) then Split(s[1..])
    else
      var n := WordLength(s);
      [s[..n]] + Split(s[n..])
  }

  /** " ".join(words) */
  function JoinSpaced(words: seq<string>): string
  {
    if words == [] then ""
    else if |words| == 1 then words[0]
    else words[0] + " " + JoinSpaced(words[1..])
  }

  lemma JoinSpacedCons(w: string, ws: seq<string>)
    requires ws != []
    ensures JoinSpaced([w] + ws) == w + " " + JoinSpaced(ws)
  {
    assert ([w] + ws)[1..] == ws;
  }

  lemma {:induction false} WordLengthOfWord(w: string, rest: string)
    requires forall i :: 0 <= i < |w| ==> !IsSpace(w[i])
    requires rest == [] || IsSpace(rest[0])
    ensures WordLength(w + rest) == |w|
  {
    if w != [] {
      assert (w + rest)[1..] == w[1..] + rest;
      WordLengthOfWord(w[1..], rest);
    }
  }

  lemma SplitAfterWord(w: string, rest: string)
    requires IsWord(w)
    requires rest == [] || IsSpace(rest[0])
    ensures Split(w + rest) == [w] + Split(rest)
  {
    WordLengthOfWord(w, rest);
    assert (w + rest)[..|w|] == w;
    assert (w + rest)[|w|..] == rest;
  }

  /** Splitting words joined by single spaces gives the words back, as long
      as none of them is empty or contains a blank. */
  lemma {:induction false} SplitJoinSpaced(words: seq<string>)
    requires forall k :: 0 <= k < |words| ==> IsWord(words[k])
    ensures Split(JoinSpaced(words)) == words
  {
    if words == [] {
    } else if |words| == 1 {
      SplitAfterWord(words[0], "");
      assert words[0] + "" == words[0];
    } else {
      var tail := JoinSpaced(words[1..]);
      assert JoinSpaced(words) == words[0] + (" " + tail);
      SplitAfterWord(words[0], " " + tail);
      assert (" " + tail)[1..] == tail;
      SplitJoinSpaced(words[1..]);
    }
  }

  lemma {:induction false} WordLengthBeforeBlank(a: string, rest: string)
    requires rest == [] || IsSpace(rest[0])
    ensures WordLength(a + rest) == WordLength(a)
  {
    if a != [] && !IsSpace(a[0]) {
      assert (a + rest)[1..] == a[1..] + rest;
      WordLengthBeforeBlank(a[1..], rest);
    }
  }

  /** A blank separates: what lies on either side of it is split on its own. */
  lemma {:induction false} SplitAtBlank(a: string, c: char, b: string)
    requires IsSpace(c)
    ensures Split(a + [c] + b) == Split(a) + Split(b)
    decreases |a|
  {
    var s := a + [c] + b;
    if a == [] {
      assert s[1..] == b;
    } else if IsSpace(a[0]) {
      assert s[1..] == a[1..] + [c] + b;
      SplitAtBlank(a[1..], c, b);
    } else {
      var n := WordLength(a);
      WordLengthBeforeBlank(a, [c] + b);
      assert s == a + ([c] + b);
      assert s[..n] == a[..n];
      assert s[n..] == a[n..] + [c] + b;
      SplitAtBlank(a[n..], c, b);
    }
  }

  /** A word splits into itself. */
  lemma SplitWord(w: string)
    requires IsWord(w)
    ensures Split(w) == [w]
  {
    SplitAfterWord(w, "");
    assert w + "" == w;
  }

  /** The words of each string in turn. */
  function SplitEach(parts: seq<string>): seq<string>
  {
    if parts == [] then [] else Split(parts[0]) + SplitEach(parts[1..])
  }

  lemma {:induction false} SplitEachAppend(a: seq<string>, b: seq<string>)
    ensures SplitEach(a + b) == SplitEach(a) + SplitEach(b)
  {
    if a == [] {
      assert a + b == b;
    } else {
      assert (a + b)[1..] == a[1..] + b;
      SplitEachAppend(a[1..], b);
    }
  }

  lemma SplitEachOne(p: string)
    ensures SplitEach([p]) == Split(p)
  {
    assert [p][1..] == [];
  }

  /** Strings without blanks are each one argument. */
  lemma {:induction false} SplitEachWords(words: seq<string>)
    requires forall k :: 0 <= k < |words| ==> IsWord(words[k])
    ensures SplitEach(words) == words
  {
    if words != [] {
      SplitWord(words[0]);
      SplitEachWords(words[1..]);
    }
  }

  /** Splitting a single-space join splits every joined string on its own,
      whatever blanks the strings themselves hold. */
  lemma {:induction false} SplitOfJoin(parts: seq<string>)
    ensures Split(JoinSpaced(parts)) == SplitEach(parts)
  {
    if |parts| == 1 {
      assert SplitEach(parts) == Split(parts[0]) + [];
    } else if |parts| > 1 {
      JoinSpacedCons(parts[0], parts[1..]);
      assert [parts[0]] + parts[1..] == parts;
      assert JoinSpaced(parts) == parts[0] + [' '] + JoinSpaced(parts[1..]);
      SplitAtBlank(parts[0], ' ', JoinSpaced(parts[1..]));
      SplitOfJoin(parts[1..]);
    }
  }

  /** The string with its leading int() blanks removed. */
  function StripLeft(s: string): (t: string)
    ensures |t| <= |s| && t == s[|s| - |t|..]
    ensures t == [] || !IsIntBlank(t[0])
  {
    if s != [] && IsIntBlank(s[0]) then StripLeft(s[1..]) else s
  }

  /** The string with its trailing int() blanks removed. */
  function StripRight(s: string): (t: string)
    ensures |t| <= |s| && t == s[..|t|]
    ensures t == [] || !IsIntBlank(t[|t| - 1])
  {
    if s != [] && IsIntBlank(s[|s| - 1]) then StripRight(s[..|s| - 1]) else s
  }

  /** The text int() parses, once the blanks around it are gone. */
  function Strip(s: string): string
  {
    StripRight(StripLeft(s))
  }

  predicate AllIntBlanks(s: string)
  {
    forall i :: 0 <= i < |s| ==> IsIntBlank(s[i])
  }

  lemma {:induction false} StripLeftBlanks(pre: string, t: string)
    requires AllIntBlanks(pre) && |t| > 0 && !IsIntBlank(t[0])
    ensures StripLeft(pre + t) == t
  {
    if pre != [] {
      assert (pre + t)[1..] == pre[1..] + t;
      StripLeftBlanks(pre[1..], t);
    }
  }

  lemma {:induction false} StripRightBlanks(t: string, post: string)
    requires AllIntBlanks(post) && |t| > 0 && !IsIntBlank(t[|t| - 1])
    ensures StripRight(t + post) == t
  {
    if post != [] {
      var p := post[..|post| - 1];
      assert (t + post)[..|t + post| - 1] == t + p;
      StripRightBlanks(t, p);
    }
  }

  /** Decimal digits, possibly grouped by single underscores between digits,
      as int() accepts them ("1_000"). */
  predicate IsDigitGroup(s: string)
  {
    && |s| > 0
    && IsDigit(s[0])
    && DigitsOrUnderscores(s)
    && forall i :: 0 <= i < |s| && s[i] == '_' ==> i + 1 < |s| && IsDigit(s[i + 1])
  }

  predicate DigitsOrUnderscores(s: string)
  {
    forall i :: 0 <= i < |s| ==> IsDigit(s[i]) || s[i] == '_'
  }

  /** The number the digits of s spell, underscores skipped. */
  function DigitsValue(s: string): nat
    requires DigitsOrUnderscores(s)
  {
    if s == [] then 0
    else
      var p := DigitsValue(s[..|s| - 1]);
      if s[|s| - 1] == '_' then p else p * 10 + DigitValue(s[|s| - 1])
  }

  /** str(n) for n >= 0: decimal digits without leading zeros. */
  function NatToString(n: nat): (s: string)
    ensures |s| > 0 && forall i :: 0 <= i < |s| ==> IsDigit(s[i])
    ensures |s| == 1 || s[0] != '0'
  {
    if n < 10 then [DigitChar(n)] else NatToString(n / 10) + [DigitChar(n % 10)]
  }

  /** str(n) */
  function IntToString(n: int): (s: string)
  {
    if n < 0 then "-" + NatToString(-n) else NatToString(n)
  }

  /** int(s): blanks around the literal are ignored, one sign is allowed,
      and anything else that is not a digit group raises ValueError. */
  function ParseInt(s: string): (r: Result<int>)
    ensures r.Err? ==> r.error == InvalidLiteral(s)
    ensures r.Ok? ==> |Strip(s)| > 0 && !IsIntBlank(Strip(s)[0])
  {
    var t := Strip(s);
    if |t| > 0 && (t[0] == '+' || t[0] == '-') && IsDigitGroup(t[1..]) then
      Ok(if t[0] == '-' then -(DigitsValue(t[1..]) as int) else DigitsValue(t[1..]))
    else if IsDigitGroup(t) then
      Ok(DigitsValue(t))
    else
      Err(InvalidLiteral(s))
  }

  lemma {:induction false} DigitsValueOfNat(n: nat)
    ensures DigitsValue(NatToString(n)) == n
  {
    if n >= 10 {
      var s := NatToString(n);
      assert s[..|s| - 1] == NatToString(n / 10);
      DigitsValueOfNat(n / 10);
    }
  }

  /** The blanks around a text are what int() strips. */
  lemma StripAround(pre: string, t: string, post: string)
    requires AllIntBlanks(pre) && AllIntBlanks(post)
    requires |t| > 0 && !IsIntBlank(t[0]) && !IsIntBlank(t[|t| - 1])
    ensures Strip(pre + t + post) == t
  {
    assert pre + t + post == pre + (t + post);
    assert (t + post)[0] == t[0];
    StripLeftBlanks(pre, t + post);
    StripRightBlanks(t, post);
  }

  /** A literal is read as its sign applied to the value of its digits,
      whatever blanks surround it. */
  lemma ParseIntOfLiteral(pre: string, sign: string, digits: string, post: string)
    requires AllIntBlanks(pre) && AllIntBlanks(post)
    requires sign == "" || sign == "+" || sign == "-"
    requires IsDigitGroup(digits)
    ensures ParseInt(pre + sign + digits + post)
         == Ok(if sign == "-" then -(DigitsValue(digits) as int) else DigitsValue(digits) as int)
  {
    var last := digits[|digits| - 1];
    SignOrDigitNotBlank(digits[0]);
    SignOrDigitNotBlank(last);
    if sign == "" {
      assert pre + sign + digits + post == pre + digits + post;
      StripAround(pre, digits, post);
      ParseUnsigned(pre + sign + digits + post, digits);
    } else {
      var c := sign[0];
      var lit := [c] + digits;
      assert sign == [c];
      SignOrDigitNotBlank(c);
      assert lit[0] == c && lit[|lit| - 1] == last;
      assert pre + sign + digits + post == pre + lit + post;
      StripAround(pre, lit, post);
      ParseSigned(pre + sign + digits + post, c, digits);
    }
  }

  /** StripLeft drops blanks and nothing else. */
  lemma {:induction false} StripLeftDropsBlanks(s: string)
    ensures AllIntBlanks(s[..|s| - |StripLeft(s)|])
    decreases |s|
  {
    if s != [] && IsIntBlank(s[0]) {
      StripLeftDropsBlanks(s[1..]);
      var k := |s| - |StripLeft(s)|;
      assert s[..k] == [s[0]] + s[1..][..k - 1];
    }
  }

  /** StripRight drops blanks and nothing else. */
  lemma {:induction false} StripRightDropsBlanks(s: string)
    ensures AllIntBlanks(s[|StripRight(s)|..])
    decreases |s|
  {
    if s != [] && IsIntBlank(s[|s| - 1]) {
      var p := s[..|s| - 1];
      StripRightDropsBlanks(p);
      var k := |StripRight(s)|;
      assert s[k..] == p[k..] + [s[|s| - 1]];
    }
  }

  lemma Regroup<T>(a: seq<T>, b: seq<T>, c: seq<T>, d: seq<T>)
    ensures a + (b + c) + d == a + b + c + d
    ensures a + (b + d) == a + b + d
  {
  }

  lemma SplitAt<T>(s: seq<T>, k: nat)
    requires k <= |s|
    ensures s == s[..k] + s[k..]
  {
  }

  lemma StripLeftParts(s: string) returns (pre: string)
    ensures AllIntBlanks(pre) && s == pre + StripLeft(s)
  {
    StripLeftDropsBlanks(s);
    pre := s[..|s| - |StripLeft(s)|];
    SplitAt(s, |pre|);
  }

  lemma StripRightParts(s: string) returns (post: string)
    ensures AllIntBlanks(post) && s == StripRight(s) + post
  {
    StripRightDropsBlanks(s);
    post := s[|StripRight(s)|..];
    SplitAt(s, |StripRight(s)|);
  }

  /** The text int() reads is the input less some blanks on each side. */
  lemma StripIsInside(s: string) returns (pre: string, post: string)
    ensures AllIntBlanks(pre) && AllIntBlanks(post)
    ensures s == pre + Strip(s) + post
  {
    pre := StripLeftParts(s);
    post := StripRightParts(StripLeft(s));
    Regroup(pre, Strip(s), post, []);
  }

  /** The converse of ParseIntOfLiteral: whatever int() accepts is blanks,
      at most one sign, a digit group with single underscores between
      digits, and blanks, so "12a", "1__2", "1_" and "+-1" are refused. */
  lemma ParseIntOnlyLiterals(s: string)
    requires ParseInt(s).Ok?
    ensures exists pre, sign, digits, post ::
      && AllIntBlanks(pre) && AllIntBlanks(post)
      && (sign == "" || sign == "+" || sign == "-")
      && IsDigitGroup(digits)
      && s == pre + sign + digits + post
  {
    var pre, post := StripIsInside(s);
    var sign, digits := AcceptedStripped(s);
    Regroup(pre, sign, digits, post);
    assert s == pre + sign + digits + post;
  }

  /** What ParseInt accepts, once stripped, is a sign and a digit group. */
  lemma AcceptedStripped(s: string) returns (sign: string, digits: string)
    requires ParseInt(s).Ok?
    ensures sign == "" || sign == "+" || sign == "-"
    ensures IsDigitGroup(digits) && Strip(s) == sign + digits
  {
    var t := Strip(s);
    if |t| > 0 && (t[0] == '+' || t[0] == '-') && IsDigitGroup(t[1..]) {
      sign, digits := [t[0]], t[1..];
    } else {
      sign, digits := "", t;
    }
  }

  /** A letter after the digits is refused. */
  lemma ParseIntRefusesTrailingLetter()
    ensures ParseInt("12a").Err?
  {
    var s := "12a";
    assert StripLeft(s) == s;
    assert StripRight(s) == s;
    assert !IsDigitGroup(s) by { assert !IsDigit(s[2]); }
  }

  /** A doubled underscore is refused. */
  lemma ParseIntRefusesDoubledUnderscore()
    ensures ParseInt("1__2").Err?
  {
    var s := "1__2";
    assert StripLeft(s) == s;
    assert StripRight(s) == s;
    assert !IsDigitGroup(s) by { assert s[1] == '_' && !IsDigit(s[2]); }
  }

  /** A trailing underscore is refused. */
  lemma ParseIntRefusesTrailingUnderscore()
    ensures ParseInt("1_").Err?
  {
    var s := "1_";
    assert StripLeft(s) == s;
    assert StripRight(s) == s;
    assert !IsDigitGroup(s) by { assert s[1] == '_'; }
  }

  /** A doubled sign is refused. */
  lemma ParseIntRefusesDoubledSign()
    ensures ParseInt("+-1").Err?
  {
    var s := "+-1";
    assert StripLeft(s) == s;
    assert StripRight(s) == s;
    assert !IsDigitGroup(s[1..]) by { assert !IsDigit(s[1..][0]); }
    assert !IsDigitGroup(s) by { assert !IsDigit(s[0]); }
  }

  lemma SignOrDigitNotBlank(c: char)
    requires IsDigit(c) || c == '+' || c == '-'
    ensures !IsIntBlank(c)
  {
  }

  lemma ParseUnsigned(s: string, digits: string)
    requires Strip(s) == digits && IsDigitGroup(digits)
    ensures ParseInt(s) == Ok(DigitsValue(digits) as int)
  {
    assert IsDigit(digits[0]);
  }

  lemma ParseSigned(s: string, sign: char, digits: string)
    requires Strip(s) == [sign] + digits && (sign == '+' || sign == '-') && IsDigitGroup(digits)
    ensures ParseInt(s) == Ok(if sign == '-' then -(DigitsValue(digits) as int) else DigitsValue(digits) as int)
  {
    var t := Strip(s);
    assert t[0] == sign && t[1..] == digits;
  }

  /** Leading zeros do not change the value. */
  lemma {:induction false} LeadingZeroIgnored(d: string)
    requires DigitsOrUnderscores(d)
    ensures DigitsOrUnderscores("0" + d)
    ensures DigitsValue("0" + d) == DigitsValue(d)
    decreases |d|
  {
    if d != [] {
      var p := d[..|d| - 1];
      assert ("0" + d)[..|d|] == "0" + p;
      LeadingZeroIgnored(p);
    }
  }

  /** An underscore between digits does not change the value. */
  lemma {:induction false} UnderscoreIgnored(a: string, b: string)
    requires DigitsOrUnderscores(a) && DigitsOrUnderscores(b)
    ensures DigitsOrUnderscores(a + "_" + b) && DigitsOrUnderscores(a + b)
    ensures DigitsValue(a + "_" + b) == DigitsValue(a + b)
    decreases |b|
  {
    if b == [] {
      assert (a + "_" + b)[..|a|] == a;
      assert a + b == a;
    } else {
      var p := b[..|b| - 1];
      assert (a + "_" + b)[..|a + "_" + b| - 1] == a + "_" + p;
      assert (a + b)[..|a + b| - 1] == a + p;
      UnderscoreIgnored(a, p);
    }
  }

  /** An ASCII group separator before the digits is not a blank to int(),
      even though str.split() splits on it. */
  lemma SeparatorIsNotBlank(n: nat)
    ensures IsSpace('\U{1C}')
    ensures ParseInt("\U{1C}" + NatToString(n)).Err?
  {
    var s := "\U{1C}" + NatToString(n);
    assert s[|s| - 1] == NatToString(n)[|NatToString(n)| - 1];
    assert !IsIntBlank(s[0]) && !IsIntBlank(s[|s| - 1]);
    StripAround("", s, "");
    assert "" + s + "" == s;
    ParseRejects(s);
  }

  /** Text that, once stripped, starts with neither a digit nor a sign is
      no literal. */
  lemma ParseRejects(s: string)
    requires |Strip(s)| > 0 && !IsDigit(Strip(s)[0]) && Strip(s)[0] != '+' && Strip(s)[0] != '-'
    ensures ParseInt(s) == Err(InvalidLiteral(s))
  {
  }

  /** int(str(n)) == n: the launcher's integer settings survive being
      written back into the launch command and read again. */
  lemma ParseIntOfIntToString(n: int)
    ensures ParseInt(IntToString(n)) == Ok(n)
  {
    var s := IntToString(n);
    var d := NatToString(if n < 0 then -n else n);
    DigitsValueOfNat(if n < 0 then -n else n);
    var sign := if n < 0 then "-" else "";
    assert s == "" + sign + d + "";
    ParseIntOfLiteral("", sign, d, "");
  }

  /** str() of an integer is a single word: it never splits. */
  lemma IntToStringIsWord(n: int)
    ensures IsWord(IntToString(n))
  {
  }
}
