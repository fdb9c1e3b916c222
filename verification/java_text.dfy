/** The handful of java.lang.String and Integer operations the record handlers
    rely on, stated over `string` = `seq<char>`: trim, split on a literal
    separator, join, replace-with-nothing, decimal printing and parsing. */
module JavaText {
  import opened Wrappers

  // ---------------------------------------------------------------- trim

  /** String.trim strips every character whose code is at most U+0020. */
  predicate IsTrimmable(c: char) {
    c <= ' '
  }

  predicate IsBlank(s: string) {
    forall i :: 0 <= i < |s| ==> IsTrimmable(s[i])
  }

  /** Neither end of s would be touched by trim. */
  predicate IsTrimmed(s: string) {
    s == [] || (!IsTrimmable(s[0]) && !IsTrimmable(s[|s| - 1]))
  }

  /** The first index at or after a whose character trim keeps, |s| when
      there is none. */
  function SkipBlanks(s: string, a: nat): (b: nat)
    requires a <= |s|
    requires forall i :: 0 <= i < a ==> IsTrimmable(s[i])
    ensures a <= b <= |s|
    ensures forall i :: 0 <= i < b ==> IsTrimmable(s[i])
    ensures b < |s| ==> !IsTrimmable(s[b])
    decreases |s| - a
  {
    if a < |s| && IsTrimmable(s[a]) then SkipBlanks(s, a + 1) else a
  }

  /** The end, at or below e and above lo, of the part trim keeps: every
      character from it on is trimmable. */
  function SkipTrailing(s: string, lo: nat, e: nat): (b: nat)
    requires lo <= e <= |s|
    requires forall i :: e <= i < |s| ==> IsTrimmable(s[i])
    ensures lo <= b <= e
    ensures forall i :: b <= i < |s| ==> IsTrimmable(s[i])
    ensures b > lo ==> !IsTrimmable(s[b - 1])
    decreases e
  {
    if e > lo && IsTrimmable(s[e - 1]) then SkipTrailing(s, lo, e - 1) else e
  }

  /** The characters before a and from e on are all trimmable. */
  lemma BlankEnds(s: string, a: nat, e: nat)
    requires a <= e <= |s|
    requires forall i :: 0 <= i < a ==> IsTrimmable(s[i])
    requires forall i :: e <= i < |s| ==> IsTrimmable(s[i])
    ensures IsBlank(s[..a]) && IsBlank(s[e..])
  {
    assert forall i :: 0 <= i < a ==> s[..a][i] == s[i];
    assert forall i :: 0 <= i < |s| - e ==> s[e..][i] == s[e + i];
  }

  /** String.trim(): s without a blank prefix and a blank suffix, itself
      trimmed at both ends. The result is empty exactly when s is blank, and
      trimming an already trimmed string changes nothing. */
  function Trim(s: string): (r: string)
    ensures exists a, e :: 0 <= a <= e <= |s| && r == s[a..e] && IsBlank(s[..a]) && IsBlank(s[e..])
    ensures IsTrimmed(r)
    ensures r == [] <==> IsBlank(s)
    ensures IsTrimmed(s) ==> r == s
    ensures |r| <= |s|
  {
    var a := SkipBlanks(s, 0);
    var e := SkipTrailing(s, a, |s|);
    assert a < e ==> !IsTrimmable(s[a]);
    assert s != [] && !IsTrimmable(s[0]) ==> a == 0;
    assert s != [] && !IsTrimmable(s[|s| - 1]) ==> e == |s|;
    BlankEnds(s, a, e);
    s[a..e]
  }

  lemma TrimIdempotent(s: string)
    ensures Trim(Trim(s)) == Trim(s)
  {
  }

  // ------------------------------------------------------ search and prefix

  /** sep occurs in s starting at index i. */
  predicate MatchAt(s: string, sep: string, i: int) {
    0 <= i && i + |sep| <= |s| && s[i..i + |sep|] == sep
  }

  /** String.contains. */
  predicate Contains(s: string, pat: string) {
    exists i :: 0 <= i <= |s| && MatchAt(s, pat, i)
  }

  /** String.startsWith. */
  predicate StartsWith(s: string, prefix: string) {
    |prefix| <= |s| && s[..|prefix|] == prefix
  }

  /** No occurrence of sep begins before index k of s. */
  predicate NoMatchBefore(s: string, sep: string, k: int) {
    forall i :: 0 <= i < k ==> !MatchAt(s, sep, i)
  }

  /** Dropping the first character moves every later match one place left. */
  lemma NoMatchShift(s: string, sep: string, k: nat)
    requires |s| >= 1
    requires NoMatchBefore(s, sep, k + 1)
    ensures NoMatchBefore(s[1..], sep, k)
  {
    var t := s[1..];
    forall i | 0 <= i < k
      ensures !MatchAt(t, sep, i)
    {
      assert !MatchAt(s, sep, i + 1);
      if i + |sep| <= |t| {
        assert t[i..i + |sep|] == s[i + 1..i + 1 + |sep|];
      }
    }
  }

  /** A string free of a character has no one-character match of it. */
  lemma NoCharMatch(x: string, c: char, y: string)
    requires c !in x
    ensures NoMatchBefore(x + [c] + y, [c], |x|)
  {
    var s := x + [c] + y;
    forall i | 0 <= i < |x|
      ensures !MatchAt(s, [c], i)
    {
      assert s[i..i + 1] == [x[i]];
    }
  }

  lemma NoCharMatchAll(x: string, c: char)
    requires c !in x
    ensures NoMatchBefore(x, [c], |x|)
  {
    forall i | 0 <= i < |x|
      ensures !MatchAt(x, [c], i)
    {
      assert x[i..i + 1] == [x[i]];
    }
  }

  // --------------------------------------------------------------- split

  /** All fields of s between the leftmost non-overlapping occurrences of a
      non-empty separator, empty ones included. */
  function Fields(s: string, sep: string): (r: seq<string>)
    requires |sep| > 0
    ensures |r| >= 1
    decreases |s|
  {
    if |s| < |sep| then [s]
    else if s[..|sep|] == sep then [""] + Fields(s[|sep|..], sep)
    else
      var rest := Fields(s[1..], sep);
      [[s[0]] + rest[0]] + rest[1..]
  }

  /** The number of fields left of fs[..n] once the empty strings at its end
      are dropped. */
  function KeptFields(fs: seq<string>, n: nat): (k: nat)
    requires n <= |fs|
    ensures k <= n
    ensures k == 0 || fs[k - 1] != ""
    ensures forall i :: k <= i < n ==> fs[i] == ""
    decreases n
  {
    if n > 0 && fs[n - 1] == "" then KeptFields(fs, n - 1) else n
  }

  /** String.split(sep) for a separator without regular-expression
      metacharacters: the string itself when sep does not occur, otherwise its
      fields with trailing empty fields removed. */
  function Split(s: string, sep: string): (r: seq<string>)
    requires |sep| > 0
    ensures |r| <= |Fields(s, sep)| && r == Fields(s, sep)[..|r|]
    ensures |r| == 1 || r == [] || r[|r| - 1] != ""
  {
    var fs := Fields(s, sep);
    if |fs| == 1 then fs else fs[..KeptFields(fs, |fs|)]
  }

  /** The fields Split leaves out are all empty. */
  lemma SplitDropsOnlyEmpty(s: string, sep: string)
    requires |sep| > 0
    ensures forall i :: |Split(s, sep)| <= i < |Fields(s, sep)| ==> Fields(s, sep)[i] == ""
  {
  }

  /** String.join(sep, parts). */
  function Join(sep: string, parts: seq<string>): (r: string)
    ensures |parts| >= 1 ==> StartsWith(r, parts[0])
    ensures forall c :: c in r ==> c in sep || exists i :: 0 <= i < |parts| && c in parts[i]
  {
    if |parts| == 0 then ""
    else if |parts| == 1 then parts[0]
    else parts[0] + sep + Join(sep, parts[1..])
  }

  /** Without an occurrence of the separator there is a single field. */
  lemma {:induction false} FieldsNoMatch(s: string, sep: string)
    requires |sep| > 0
    requires NoMatchBefore(s, sep, |s|)
    ensures Fields(s, sep) == [s]
    decreases |s|
  {
    if |s| >= |sep| {
      assert !MatchAt(s, sep, 0);
      var t := s[1..];
      NoMatchShift(s, sep, |t|);
      FieldsNoMatch(t, sep);
      assert [s[0]] + t == s;
    }
  }

  /** When no occurrence starts inside x, the first field of x + sep + y is x. */
  lemma {:induction false} FieldsAfterPrefix(x: string, sep: string, y: string)
    requires |sep| > 0
    requires NoMatchBefore(x + sep + y, sep, |x|)
    ensures Fields(x + sep + y, sep) == [x] + Fields(y, sep)
    decreases |x|
  {
    var s := x + sep + y;
    if |x| == 0 {
      assert s[..|sep|] == sep;
      assert s[|sep|..] == y;
    } else {
      assert !MatchAt(s, sep, 0);
      var x' := x[1..];
      var t := x' + sep + y;
      assert s[1..] == t;
      NoMatchShift(s, sep, |x'|);
      FieldsAfterPrefix(x', sep, y);
      assert [x[0]] + x' == x;
    }
  }

  /** Fields split on a character never contain that character. */
  lemma {:induction false} FieldsFreeOfSeparator(s: string, c: char)
    ensures forall k :: 0 <= k < |Fields(s, [c])| ==> c !in Fields(s, [c])[k]
    decreases |s|
  {
    if |s| >= 1 {
      FieldsFreeOfSeparator(s[1..], c);
      if s[..1] != [c] {
        assert s[0] != c;
      }
    }
  }

  /** A field list that a character split can produce and reproduce: no field
      holds the separator, and a list of two or more ends in a non-empty field. */
  predicate WellFormedFields(c: char, parts: seq<string>) {
    && |parts| >= 1
    && (forall k :: 0 <= k < |parts| ==> c !in parts[k])
    && (|parts| >= 2 ==> parts[|parts| - 1] != "")
  }

  lemma {:induction false} FieldsOfJoin(c: char, parts: seq<string>)
    requires |parts| >= 1
    requires forall k :: 0 <= k < |parts| ==> c !in parts[k]
    ensures Fields(Join([c], parts), [c]) == parts
    decreases |parts|
  {
    if |parts| == 1 {
      NoCharMatchAll(parts[0], c);
      FieldsNoMatch(parts[0], [c]);
    } else {
      var rest := Join([c], parts[1..]);
      NoCharMatch(parts[0], c, rest);
      FieldsAfterPrefix(parts[0], [c], rest);
      FieldsOfJoin(c, parts[1..]);
      assert parts == [parts[0]] + parts[1..];
    }
  }

  /** Joining well-formed fields and splitting again gives the fields back. */
  lemma SplitOfJoin(c: char, parts: seq<string>)
    requires WellFormedFields(c, parts)
    ensures Split(Join([c], parts), [c]) == parts
  {
    FieldsOfJoin(c, parts);
  }

  /** Whatever a character split returns, when it returns at least one field,
      is well formed. */
  lemma SplitIsWellFormed(s: string, c: char)
    requires |Split(s, [c])| >= 1
    ensures WellFormedFields(c, Split(s, [c]))
  {
    FieldsFreeOfSeparator(s, c);
    var fs := Fields(s, [c]);
    var r := Split(s, [c]);
    assert forall k :: 0 <= k < |r| ==> r[k] == fs[k];
  }

  /** When a character split yields two or more fields, the string starts
      with the first field followed by the separator. */
  lemma {:induction false} FieldsHeadPrefix(s: string, c: char)
    requires |Fields(s, [c])| >= 2
    ensures StartsWith(s, Fields(s, [c])[0] + [c])
    decreases |s|
  {
    var head := Fields(s, [c])[0];
    if s[..1] != [c] {
      var rest := Fields(s[1..], [c]);
      assert head == [s[0]] + rest[0];
      FieldsHeadPrefix(s[1..], c);
      assert s[1..][..|rest[0]| + 1] == rest[0] + [c];
      assert s[..|head| + 1] == [s[0]] + s[1..][..|rest[0]| + 1];
    }
  }

  lemma SplitHeadPrefix(s: string, c: char)
    requires |Split(s, [c])| >= 2
    ensures StartsWith(s, Split(s, [c])[0] + [c])
  {
    FieldsHeadPrefix(s, c);
  }

  /** Replacing one field of a split line by a separator-free, non-empty value
      and re-joining: splitting the result yields exactly the edited fields. */
  lemma SplitAfterFieldEdit(parts: seq<string>, c: char, j: nat, v: string)
    requires WellFormedFields(c, parts)
    requires j < |parts| && c !in v && v != ""
    ensures WellFormedFields(c, parts[j := v])
    ensures Split(Join([c], parts[j := v]), [c]) == parts[j := v]
  {
    var edited := parts[j := v];
    forall k | 0 <= k < |edited|
      ensures c !in edited[k]
    {
      if k != j {
        assert edited[k] == parts[k];
      }
    }
    assert |edited| >= 2 ==> edited[|edited| - 1] != "";
    SplitOfJoin(c, edited);
  }

  // ------------------------------------------------------ replace with ""

  /** s.replace(pat, ""): removes the leftmost non-overlapping occurrences. */
  function DeleteOccurrences(s: string, pat: string): (r: string)
    requires |pat| > 0
    ensures |r| <= |s|
    ensures |r| == |s| ==> r == s
    decreases |s|
  {
    if |s| < |pat| then s
    else if s[..|pat|] == pat then
      assert s == s[..|pat|] + s[|pat|..];
      DeleteOccurrences(s[|pat|..], pat)
    else [s[0]] + DeleteOccurrences(s[1..], pat)
  }

  /** A prefix in which no occurrence begins is kept verbatim. */
  lemma {:induction false} DeleteKeepsPrefix(x: string, y: string, pat: string)
    requires |pat| > 0
    requires NoMatchBefore(x + y, pat, |x|)
    ensures DeleteOccurrences(x + y, pat) == x + DeleteOccurrences(y, pat)
    decreases |x|
  {
    var s := x + y;
    if |x| == 0 {
      assert s == y;
    } else if |s| < |pat| {
      assert DeleteOccurrences(y, pat) == y;
    } else {
      assert !MatchAt(s, pat, 0);
      assert s[..|pat|] != pat;
      var t := x[1..] + y;
      assert s[1..] == t;
      assert DeleteOccurrences(s, pat) == [s[0]] + DeleteOccurrences(t, pat);
      NoMatchShift(s, pat, |x| - 1);
      DeleteKeepsPrefix(x[1..], y, pat);
      assert [x[0]] + x[1..] == x;
    }
  }

  /** A string without an occurrence is left as it is. */
  lemma DeleteAbsent(s: string, pat: string)
    requires |pat| > 0 && !Contains(s, pat)
    ensures DeleteOccurrences(s, pat) == s
  {
    assert s + "" == s;
    DeleteKeepsPrefix(s, "", pat);
  }

  /** No occurrence starts in x, or at the boundary, of x + y when x has none
      and y begins with a character the pattern does not contain. */
  lemma NoMatchAcross(x: string, y: string, pat: string)
    requires |pat| > 0 && !Contains(x, pat)
    requires |y| >= 1 && y[0] !in pat
    ensures NoMatchBefore(x + y, pat, |x| + 1)
  {
    var s := x + y;
    forall i | 0 <= i < |x| + 1
      ensures !MatchAt(s, pat, i)
    {
      if i + |pat| <= |x| {
        assert s[i..i + |pat|] == x[i..i + |pat|];
        assert !MatchAt(x, pat, i);
      } else if i + |pat| <= |s| {
        assert s[i..i + |pat|][|x| - i] == y[0];
      }
    }
  }

  lemma DeleteLeading(pat: string, y: string)
    requires |pat| > 0
    ensures DeleteOccurrences(pat + y, pat) == DeleteOccurrences(y, pat)
  {
    assert (pat + y)[..|pat|] == pat;
    assert (pat + y)[|pat|..] == y;
  }

  /** When pat occurs only at the very start of pat + x + mid + y, deleting
      its occurrences removes just that one: x and y hold none, mid starts
      with a character pat lacks, and no character of mid is the first one
      of pat. */
  lemma DeleteOnlyLeading(pat: string, x: string, mid: string, y: string)
    requires |pat| > 0 && !Contains(x, pat) && !Contains(y, pat)
    requires |mid| >= 1 && mid[0] !in pat
    requires forall i :: 0 <= i < |mid| ==> mid[i] != pat[0]
    ensures DeleteOccurrences(pat + x + mid + y, pat) == x + mid + y
  {
    var body := x + mid;
    var s := body + y;
    assert s == x + (mid + y);
    assert (mid + y)[0] == mid[0];
    NoMatchAcross(x, mid + y, pat);
    forall i | |x| + 1 <= i < |body|
      ensures !MatchAt(s, pat, i)
    {
      assert s[i] == mid[i - |x|];
    }
    DeleteKeepsPrefix(body, y, pat);
    DeleteAbsent(y, pat);
    assert pat + x + mid + y == pat + s;
    DeleteLeading(pat, s);
  }

  // ------------------------------------------------------------- numbers

  predicate IsDigit(c: char) {
    '0' <= c <= '9'
  }

  predicate AllDigits(s: string) {
    forall i :: 0 <= i < |s| ==> IsDigit(s[i])
  }

  function DigitChar(d: nat): (c: char)
    requires d < 10
    ensures IsDigit(c)
  {
    ('0' as int + d) as char
  }

  function DigitValue(c: char): nat
    requires IsDigit(c)
  {
    c as int - '0' as int
  }

  /** The decimal text of a non-negative number as %d or String.valueOf print
      it: digits only, and a leading zero only for zero itself. */
  function NatToString(n: nat): (r: string)
    ensures |r| >= 1 && AllDigits(r)
    ensures r[0] == '0' <==> n == 0
    decreases n
  {
    if n < 10 then [DigitChar(n)] else NatToString(n / 10) + [DigitChar(n % 10)]
  }

  /** The value of a string of ASCII digits. */
  function DigitsValue(s: string): nat
    requires AllDigits(s)
    decreases |s|
  {
    if s == [] then 0 else DigitsValue(s[..|s| - 1]) * 10 + DigitValue(s[|s| - 1])
  }

  lemma {:induction false} DigitsValueOfNatToString(n: nat)
    ensures DigitsValue(NatToString(n)) == n
    decreases n
  {
    if n >= 10 {
      var s := NatToString(n);
      DigitsValueOfNatToString(n / 10);
      assert s[..|s| - 1] == NatToString(n / 10);
    }
  }

  /** Decimal printing is injective. */
  lemma NatToStringInjective(m: nat, n: nat)
    requires NatToString(m) == NatToString(n)
    ensures m == n
  {
    DigitsValueOfNatToString(m);
    DigitsValueOfNatToString(n);
  }

  /** A leading zero does not change the value of a digit string. */
  lemma {:induction false} DigitsValueLeadingZero(s: string)
    requires AllDigits(s)
    ensures AllDigits("0" + s) && DigitsValue("0" + s) == DigitsValue(s)
    decreases |s|
  {
    var z := "0" + s;
    if s != [] {
      assert z[..|z| - 1] == "0" + s[..|s| - 1];
      DigitsValueLeadingZero(s[..|s| - 1]);
    }
  }

  /** n '0' characters. */
  function Zeros(n: nat): (r: string)
    ensures |r| == n && forall i :: 0 <= i < n ==> r[i] == '0'
  {
    seq(n, _ => '0')
  }

  /** Left-pads s with '0' to at least `width` characters (the 0 flag of %0Nd). */
  function ZeroPad(s: string, width: nat): (r: string)
    ensures |r| == if |s| >= width then |s| else width
    ensures r[|r| - |s|..] == s
    ensures forall i :: 0 <= i < |r| - |s| ==> r[i] == '0'
  {
    if |s| >= width then s
    else
      var r := Zeros(width - |s|) + s;
      assert r[|r| - |s|..] == s;
      r
  }

  lemma {:induction false} ZerosKeepValue(n: nat, s: string)
    requires AllDigits(s)
    ensures AllDigits(Zeros(n) + s)
    ensures DigitsValue(Zeros(n) + s) == DigitsValue(s)
    decreases n
  {
    if n > 0 {
      assert Zeros(n) == Zeros(n - 1) + "0";
      assert Zeros(n) + s == Zeros(n - 1) + ("0" + s);
      DigitsValueLeadingZero(s);
      ZerosKeepValue(n - 1, "0" + s);
      assert DigitsValue(Zeros(n - 1) + ("0" + s)) == DigitsValue("0" + s);
    } else {
      assert Zeros(n) + s == s;
    }
  }

  lemma ZeroPadKeepsValue(s: string, width: nat)
    requires AllDigits(s)
    ensures AllDigits(ZeroPad(s, width))
    ensures DigitsValue(ZeroPad(s, width)) == DigitsValue(s)
  {
    if |s| < width {
      ZerosKeepValue(width - |s|, s);
    }
  }

  /** String.format("%0<width>d", v) for a Java int v and width >= 1: zeros go
      between the sign and the digits. */
  function FormatPadded(v: int, width: nat): (r: string)
    requires width >= 1
    ensures |r| >= width
    ensures r[0] == '-' <==> v < 0
  {
    if v >= 0 then ZeroPad(NatToString(v), width) else "-" + ZeroPad(NatToString(-v), width - 1)
  }

  const IntMin: int := -0x8000_0000
  const IntMax: int := 0x7fff_ffff

  predicate InInt32(v: int) {
    IntMin <= v <= IntMax
  }

  /** Java int addition: the exact sum reduced into the 32-bit range. */
  function WrapInt32(v: int): (r: int)
    ensures InInt32(r)
    ensures InInt32(v) ==> r == v
    ensures (r - v) % 0x1_0000_0000 == 0
  {
    (v - IntMin) % 0x1_0000_0000 + IntMin
  }

  /** An optional '+' or '-' and one or more ASCII digits, read without a bound
      on the magnitude. */
  function ParseInteger(s: string): (r: Option<int>)
    ensures r.Some? <==> (|s| >= 1 && AllDigits(s)) || (|s| >= 2 && (s[0] == '-' || s[0] == '+') && AllDigits(s[1..]))
  {
    if |s| >= 2 && (s[0] == '-' || s[0] == '+') && AllDigits(s[1..]) then
      var magnitude: int := DigitsValue(s[1..]);
      Some(if s[0] == '-' then -magnitude else magnitude)
    else if |s| >= 1 && AllDigits(s) then Some(DigitsValue(s))
    else None
  }

  /** Integer.parseInt: the syntax of ParseInteger, and the value must fit in
      an int; None stands for the NumberFormatException. */
  function ParseJavaInt(s: string): (r: Option<int>)
    ensures r.Some? ==> InInt32(r.value) && ParseInteger(s) == r
    ensures r.None? ==> ParseInteger(s).None? || !InInt32(ParseInteger(s).value)
  {
    match ParseInteger(s)
    case Some(v) => if InInt32(v) then Some(v) else None
    case None => None
  }

  /** A zero-padded decimal reads back as the number it prints. */
  lemma ParsePadded(n: nat, width: nat)
    ensures ParseInteger(ZeroPad(NatToString(n), width)) == Some(n)
  {
    var s := ZeroPad(NatToString(n), width);
    DigitsValueOfNatToString(n);
    ZeroPadKeepsValue(NatToString(n), width);
    assert |s| >= 1 && AllDigits(s);
    assert IsDigit(s[0]);
    assert s[0] != '-' && s[0] != '+';
  }

  /** A minus sign before a digit string reads back as the negated value. */
  lemma ParseMinus(t: string, d: string, n: nat)
    requires t == "-" + d
    requires |d| >= 1 && AllDigits(d) && DigitsValue(d) == n
    ensures ParseInteger(t) == Some(-(n as int))
  {
    assert t[0] == '-' && t[1..] == d;
  }

  /** The zero-padded decimal of n: digits only, with value n. */
  lemma PaddedDigits(n: nat, width: nat)
    ensures var d := ZeroPad(NatToString(n), width);
            |d| >= 1 && AllDigits(d) && DigitsValue(d) == n
  {
    DigitsValueOfNatToString(n);
    ZeroPadKeepsValue(NatToString(n), width);
  }

  /** The unbounded reading of a "%0<width>d" text is the number printed; a
      negative number is a minus sign and the padded digits of -v. */
  lemma ParseFormattedInteger(v: int, width: nat)
    requires width >= 1
    ensures ParseInteger(FormatPadded(v, width)) == Some(v)
  {
    if v >= 0 {
      ParsePadded(v, width);
    } else {
      ParseNegativeFormatted(v, width);
    }
  }

  lemma ParseNegativeFormatted(v: int, width: nat)
    requires v < 0 && width >= 1
    ensures ParseInteger(FormatPadded(v, width)) == Some(v)
  {
    var n: nat := -v;
    NegativeFormat(v, n, width);
    PaddedDigits(n, width - 1);
    ParseMinus(FormatPadded(v, width), ZeroPad(NatToString(n), width - 1), n);
  }

  /** A negative number prints as a minus sign and its magnitude padded to
      one place fewer. */
  lemma NegativeFormat(v: int, n: nat, width: nat)
    requires v < 0 && n == -v && width >= 1
    ensures FormatPadded(v, width) == "-" + ZeroPad(NatToString(n), width - 1)
  {
  }

  /** Integer.parseInt reads back every int as String.format("%0<width>d")
      prints it, negative ones included. */
  lemma ParseFormatted(v: int, width: nat)
    requires InInt32(v) && width >= 1
    ensures ParseJavaInt(FormatPadded(v, width)) == Some(v)
  {
    ParseFormattedInteger(v, width);
  }
}
