/** The Python string primitives the pipeline's record shaping relies on:
    `str.isspace`, `str.strip`, `str.split()`, single-space joining, `str.replace(',', '')`,
    `str(int)`, decimal casting and string comparison. Strings are `seq<char>`. */
module Text {
  import opened Wrappers

  // ---------------------------------------------------------------- whitespace

  /** Python's `str.isspace()` for one character. */
  predicate IsSpace(c: char) {
    || c == ' '
    || ('\t' <= c <= '\r')
    || ('\U{1C}' <= c <= '\U{1F}')
    || c == '\U{85}' || c == '\U{A0}' || c == '\U{1680}'
    || ('\U{2000}' <= c <= '\U{200A}')
    || c == '\U{2028}' || c == '\U{2029}' || c == '\U{202F}' || c == '\U{205F}' || c == '\U{3000}'
  }

  predicate AllSpace(s: string) {
    forall i :: 0 <= i < |s| ==> IsSpace(s[i])
  }

  predicate NoSpace(s: string) {
    forall i :: 0 <= i < |s| ==> !IsSpace(s[i])
  }

  /** A token that `str.split()` can return: non-empty and free of whitespace. */
  predicate IsWord(s: string) {
    |s| > 0 && NoSpace(s)
  }

  predicate AllWords(words: seq<string>) {
    forall i :: 0 <= i < |words| ==> IsWord(words[i])
  }

  /** How many whitespace characters `s` starts with. */
  function LeadingSpaces(s: string): (k: nat)
    ensures k <= |s|
    ensures k == |s| || !IsSpace(s[k])
  {
    if s != [] && IsSpace(s[0]) then 1 + LeadingSpaces(s[1..]) else 0
  }

  lemma {:induction false} LeadingSpacesAreSpace(s: string)
    ensures AllSpace(s[..LeadingSpaces(s)])
  {
    if s != [] && IsSpace(s[0]) {
      LeadingSpacesAreSpace(s[1..]);
      var k := LeadingSpaces(s);
      assert forall i :: 1 <= i < k ==> s[..k][i] == s[1..][..k - 1][i - 1];
    }
  }

  /** How many whitespace characters `s` ends with. */
  function TrailingSpaces(s: string): (k: nat)
    ensures k <= |s|
    ensures k == |s| || !IsSpace(s[|s| - k - 1])
  {
    if s != [] && IsSpace(s[|s| - 1]) then 1 + TrailingSpaces(s[..|s| - 1]) else 0
  }

  /** `s.lstrip()`: drops the leading whitespace and nothing else. */
  function TrimStart(s: string): string {
    s[LeadingSpaces(s)..]
  }

  /** `s.rstrip()`: drops the trailing whitespace and nothing else. */
  function TrimEnd(s: string): string {
    s[..|s| - TrailingSpaces(s)]
  }

  /** Python's `str.strip()`. The result keeps a contiguous middle part of `s` and
      neither starts nor ends with whitespace. */
  function Strip(s: string): (r: string)
    ensures |r| <= |s|
    ensures r == [] || (!IsSpace(r[0]) && !IsSpace(r[|r| - 1]))
  {
    var t := TrimStart(s);
    var r := TrimEnd(t);
    assert r == [] || r[0] == t[0];
    r
  }

  lemma {:induction false} LeadingSpacesPadded(p: string, s: string)
    requires AllSpace(p)
    ensures LeadingSpaces(p + s) == |p| + LeadingSpaces(s)
    decreases |p|
  {
    if p != [] {
      assert (p + s)[1..] == p[1..] + s;
      LeadingSpacesPadded(p[1..], s);
    } else {
      assert p + s == s;
    }
  }

  lemma TrimStartPadded(p: string, s: string)
    requires AllSpace(p)
    ensures TrimStart(p + s) == TrimStart(s)
  {
    LeadingSpacesPadded(p, s);
    assert (p + s)[|p| + LeadingSpaces(s)..] == s[LeadingSpaces(s)..];
  }

  lemma {:induction false} TrailingSpacesPadded(s: string, q: string)
    requires AllSpace(q)
    ensures TrailingSpaces(s + q) == TrailingSpaces(s) + |q|
    decreases |q|
  {
    if q != [] {
      var q' := q[..|q| - 1];
      assert (s + q)[..|s + q| - 1] == s + q';
      TrailingSpacesPadded(s, q');
    } else {
      assert s + q == s;
    }
  }

  lemma TrimEndPadded(s: string, q: string)
    requires AllSpace(q)
    ensures TrimEnd(s + q) == TrimEnd(s)
  {
    TrailingSpacesPadded(s, q);
    assert (s + q)[..|s| - TrailingSpaces(s)] == s[..|s| - TrailingSpaces(s)];
  }

  lemma TrimStartAppend(s: string, q: string)
    requires AllSpace(q)
    ensures TrimStart(s + q) == if TrimStart(s) == [] then [] else TrimStart(s) + q
  {
    var k := LeadingSpaces(s);
    LeadingSpacesAreSpace(s);
    if k == |s| {
      assert s + q == s[..k] + q;
      assert s[..k] + q == (s[..k] + q) + [];
      LeadingSpacesPadded(s[..k] + q, []);
      assert AllSpace(s[..k] + q);
    } else {
      assert s + q == s[..k] + (s[k..] + q);
      LeadingSpacesPadded(s[..k], s[k..] + q);
      assert s[..k][..k] == s[..k];
      assert (s + q)[k..] == s[k..] + q;
    }
  }

  /** Whitespace invariance of `strip()`: padding with whitespace on either side does not
      change the stripped value. */
  lemma StripPadded(p: string, s: string, q: string)
    requires AllSpace(p) && AllSpace(q)
    ensures Strip(p + s + q) == Strip(s)
  {
    assert p + s + q == p + (s + q);
    TrimStartPadded(p, s + q);
    TrimStartAppend(s, q);
    if TrimStart(s) != [] {
      TrimEndPadded(TrimStart(s), q);
    }
  }

  /** A value with no surrounding whitespace is its own `strip()`. */
  lemma StripUnpadded(s: string)
    requires s == [] || (!IsSpace(s[0]) && !IsSpace(s[|s| - 1]))
    ensures Strip(s) == s
  {
  }

  // ---------------------------------------------------------------- split and join

  /** The maximal whitespace-free prefix of `s`. */
  function WordPrefix(s: string): (r: string)
    ensures |r| <= |s| && r == s[..|r|]
    ensures |r| == |s| || IsSpace(s[|r|])
  {
    if s == [] || IsSpace(s[0]) then [] else [s[0]] + WordPrefix(s[1..])
  }

  /** Python's `str.split()` with no argument: the maximal whitespace-free runs of `s`, in order. */
  function Split(s: string): seq<string>
    decreases |s|
  {
    var t := TrimStart(s);
    if t == [] then []
    else
      var w := WordPrefix(t);
      assert w == [t[0]] + WordPrefix(t[1..]);
      [w] + Split(t[|w|..])
  }

  lemma {:induction false} WordPrefixNoSpace(s: string)
    ensures NoSpace(WordPrefix(s))
  {
    if s != [] && !IsSpace(s[0]) {
      WordPrefixNoSpace(s[1..]);
      var r := WordPrefix(s);
      assert forall i :: 1 <= i < |r| ==> r[i] == WordPrefix(s[1..])[i - 1];
    }
  }

  /** Every token `split()` returns is non-empty and free of whitespace. */
  lemma {:induction false} SplitWords(s: string)
    ensures AllWords(Split(s))
    decreases |s|
  {
    var t := TrimStart(s);
    if t != [] {
      var w := WordPrefix(t);
      assert w == [t[0]] + WordPrefix(t[1..]);
      WordPrefixNoSpace(t);
      SplitWords(t[|w|..]);
      var r := Split(t[|w|..]);
      assert Split(s) == [w] + r;
      assert forall i :: 0 < i < |[w] + r| ==> ([w] + r)[i] == r[i - 1];
    }
  }

  /** `' '.join(words)`; `'{} {} {}'.format(a, b, c)` builds the same string. */
  function JoinSpace(words: seq<string>): string {
    if |words| == 0 then ""
    else if |words| == 1 then words[0]
    else words[0] + " " + JoinSpace(words[1..])
  }

  lemma {:induction false} WordPrefixOfWord(w: string, s: string)
    requires NoSpace(w)
    requires s == [] || IsSpace(s[0])
    ensures WordPrefix(w + s) == w
    decreases |w|
  {
    if w != [] {
      assert (w + s)[1..] == w[1..] + s;
      WordPrefixOfWord(w[1..], s);
      assert [w[0]] + w[1..] == w;
    } else {
      assert w + s == s;
    }
  }

  lemma {:induction false} JoinSpaceHead(words: seq<string>)
    requires |words| > 0 && AllWords(words)
    ensures |JoinSpace(words)| > 0 && JoinSpace(words)[0] == words[0][0]
    ensures !IsSpace(JoinSpace(words)[|JoinSpace(words)| - 1])
  {
    if |words| > 1 {
      JoinSpaceHead(words[1..]);
    }
  }

  lemma SplitLeadingSpace(c: char, r: string)
    requires IsSpace(c)
    ensures Split([c] + r) == Split(r)
  {
    assert ([c] + r)[1..] == r;
    assert TrimStart([c] + r) == TrimStart(r);
  }

  lemma SplitWord(w: string, rest: string)
    requires IsWord(w)
    requires rest == [] || IsSpace(rest[0])
    ensures Split(w + rest) == [w] + Split(rest)
  {
    var t := w + rest;
    assert t[0] == w[0];
    assert TrimStart(t) == t;
    WordPrefixOfWord(w, rest);
    assert t[|w|..] == rest;
  }

  lemma SplitWordSpace(w: string, rest: string)
    requires IsWord(w)
    ensures Split(w + " " + rest) == [w] + Split(rest)
  {
    assert w + " " + rest == w + ([' '] + rest);
    SplitWord(w, [' '] + rest);
    SplitLeadingSpace(' ', rest);
  }

  lemma SplitEmpty()
    ensures Split([]) == []
  {
    assert TrimStart([]) == [];
  }

  lemma SplitSingle(w: string)
    requires IsWord(w)
    ensures Split(w) == [w]
  {
    SplitWord(w, []);
    assert w + [] == w;
    SplitEmpty();
  }

  /** Splitting undoes joining with single spaces. */
  lemma {:induction false} SplitJoinSpace(words: seq<string>)
    requires AllWords(words)
    ensures Split(JoinSpace(words)) == words
  {
    if |words| == 0 {
      SplitEmpty();
    } else if |words| == 1 {
      SplitSingle(words[0]);
    } else {
      var w, rest := words[0], words[1..];
      assert AllWords(rest);
      SplitJoinSpace(rest);
      assert JoinSpace(words) == w + " " + JoinSpace(rest);
      SplitWordSpace(w, JoinSpace(rest));
      assert words == [w] + rest;
    }
  }

  /** The only whitespace in a single-space join of words is single ' ' characters
      with a non-space character on either side. */
  lemma {:induction false} JoinSpaceSingleSpaces(words: seq<string>)
    requires AllWords(words)
    ensures var j := JoinSpace(words);
      forall i :: 0 <= i < |j| && IsSpace(j[i]) ==>
        j[i] == ' ' && 0 < i < |j| - 1 && !IsSpace(j[i - 1]) && !IsSpace(j[i + 1])
  {
    if |words| > 1 {
      var w, rest := words[0], JoinSpace(words[1..]);
      JoinSpaceSingleSpaces(words[1..]);
      JoinSpaceHead(words[1..]);
      var j := JoinSpace(words);
      assert j == w + " " + rest;
      forall i | 0 <= i < |j| && IsSpace(j[i])
        ensures j[i] == ' ' && 0 < i < |j| - 1 && !IsSpace(j[i - 1]) && !IsSpace(j[i + 1])
      {
        if i > |w| {
          assert j[i] == rest[i - |w| - 1];
          if i > |w| + 1 {
            assert j[i - 1] == rest[i - |w| - 2];
          }
          assert j[i + 1] == rest[i - |w|];
        }
      }
    }
  }

  // ---------------------------------------------------------------- thousands separators

  /** `s.replace(',', '')`. */
  function StripCommas(s: string): (r: string)
    ensures ',' !in r
    ensures |r| <= |s|
    ensures ',' !in s ==> r == s
  {
    if s == [] then []
    else (if s[0] == ',' then [] else [s[0]]) + StripCommas(s[1..])
  }

  /** Removing commas works piece by piece, so the other characters keep their order. */
  lemma {:induction false} StripCommasAppend(a: string, b: string)
    ensures StripCommas(a + b) == StripCommas(a) + StripCommas(b)
    decreases |a|
  {
    if a == [] {
      assert a + b == b;
    } else {
      var h := if a[0] == ',' then [] else [a[0]];
      assert (a + b)[0] == a[0] && (a + b)[1..] == a[1..] + b;
      StripCommasAppend(a[1..], b);
      calc {
        StripCommas(a + b);
        h + StripCommas(a[1..] + b);
        h + (StripCommas(a[1..]) + StripCommas(b));
        (h + StripCommas(a[1..])) + StripCommas(b);
        StripCommas(a) + StripCommas(b);
      }
    }
  }

  // ---------------------------------------------------------------- integers as text

  predicate IsDigit(c: char) {
    '0' <= c <= '9'
  }

  predicate AllDigits(s: string) {
    forall i :: 0 <= i < |s| ==> IsDigit(s[i])
  }

  function DigitValue(c: char): (d: nat)
    requires IsDigit(c)
    ensures d < 10
  {
    (c as int) - ('0' as int)
  }

  function DigitChar(d: nat): (c: char)
    requires d < 10
    ensures IsDigit(c) && DigitValue(c) == d
  {
    ('0' as int + d) as char
  }

  /** Decimal digits of `n` without leading zeros. */
  function NatToString(n: nat): (r: string)
    ensures |r| > 0 && AllDigits(r)
    ensures r[0] == '0' ==> n == 0
  {
    if n < 10 then [DigitChar(n)] else NatToString(n / 10) + [DigitChar(n % 10)]
  }

  /** Python's `str(i)` for an `int`. */
  function IntToString(i: int): (r: string)
    ensures |r| > 0
    ensures i >= 0 ==> AllDigits(r)
  {
    if i < 0 then "-" + NatToString(-i) else NatToString(i)
  }

  /** The value of a string of decimal digits (the empty string reads as 0). */
  function ParseNat(s: string): nat
    requires AllDigits(s)
  {
    if s == [] then 0 else 10 * ParseNat(s[..|s| - 1]) + DigitValue(s[|s| - 1])
  }

  lemma {:induction false} ParseNatToString(n: nat)
    ensures ParseNat(NatToString(n)) == n
  {
    if n >= 10 {
      var s := NatToString(n);
      assert s[..|s| - 1] == NatToString(n / 10);
      ParseNatToString(n / 10);
    }
  }

  /** Distinct years give distinct year strings. */
  lemma IntToStringInjective(a: int, b: int)
    requires IntToString(a) == IntToString(b)
    ensures a == b
  {
    if a >= 0 && b >= 0 {
      ParseNatToString(a);
      ParseNatToString(b);
    } else if a < 0 && b < 0 {
      var sa, sb := NatToString(-a), NatToString(-b);
      assert sa == IntToString(a)[1..] && sb == IntToString(b)[1..];
      ParseNatToString(-a);
      ParseNatToString(-b);
    }
  }

  /** A four-digit year prints as exactly its four digits. */
  lemma FourDigitYear(y: int)
    requires 1000 <= y <= 9999
    ensures IntToString(y) == [DigitChar(y / 1000), DigitChar(y / 100 % 10), DigitChar(y / 10 % 10), DigitChar(y % 10)]
  {
    var a := y / 10;
    var b := a / 10;
    var c := b / 10;
    assert b == y / 100 && c == y / 1000;
    assert NatToString(c) == [DigitChar(c)];
    assert NatToString(b) == [DigitChar(c), DigitChar(b % 10)];
    assert NatToString(a) == [DigitChar(c), DigitChar(b % 10), DigitChar(a % 10)];
  }

  // ---------------------------------------------------------------- decimal casting

  /** Length of the maximal run of digits at the start of `s`. */
  function DigitRun(s: string): (k: nat)
    ensures k <= |s| && AllDigits(s[..k])
    ensures k == |s| || !IsDigit(s[k])
  {
    if s == [] || !IsDigit(s[0]) then 0
    else
      var k := 1 + DigitRun(s[1..]);
      assert forall i :: 1 <= i < k ==> s[..k][i] == s[1..][..k - 1][i - 1];
      k
  }

  function Pow10(k: nat): (p: nat)
    ensures p > 0
  {
    if k == 0 then 1 else 10 * Pow10(k - 1)
  }

  /** `s` with one leading sign character removed, when it has one. */
  function Unsigned(s: string): string {
    if |s| > 0 && (s[0] == '-' || s[0] == '+') then s[1..] else s
  }

  /** The text the model accepts as a number: an optional sign, then digits with at most
      one decimal point among them, and at least one digit. */
  predicate IsDecimal(s: string) {
    var b := Unsigned(s);
    && (forall i :: 0 <= i < |b| ==> IsDigit(b[i]) || b[i] == '.')
    && (forall i, j :: 0 <= i < j < |b| && b[i] == '.' ==> b[j] != '.')
    && (exists i :: 0 <= i < |b| && IsDigit(b[i]))
  }

  function Signed(negative: bool, x: real): real {
    if negative then -x else x
  }

  /** The numeric cast (`float(s)`, `pd.to_numeric(s)`) on one text cell: the value of a
      plain decimal literal, and None exactly when the text is not one. */
  function ParseDecimal(s: string): (r: Option<real>)
    ensures r.Some? <==> IsDecimal(s)
  {
    var negative := |s| > 0 && s[0] == '-';
    var body := Unsigned(s);
    var k := DigitRun(body);
    var whole, rest := body[..k], body[k..];
    DecimalShape(s);
    if rest == [] then
      if k == 0 then None
      else Some(Signed(negative, ParseNat(whole) as real))
    else if rest[0] == '.' && AllDigits(rest[1..]) && k + |rest| > 1 then
      var frac := rest[1..];
      Some(Signed(negative, ParseNat(whole) as real + (ParseNat(frac) as real) / (Pow10(|frac|) as real)))
    else
      None
  }

  /** A text is decimal exactly when it is its leading digits, then nothing or a point
      and more digits, with at least one digit in all. */
  lemma DecimalShape(s: string)
    ensures var body := Unsigned(s); var k := DigitRun(body); var rest := body[k..];
      IsDecimal(s) <==>
        || (rest == [] && k > 0)
        || (rest != [] && rest[0] == '.' && AllDigits(rest[1..]) && k + |rest| > 1)
  {
    var body := Unsigned(s);
    var k := DigitRun(body);
    var rest := body[k..];
    if IsDecimal(s) && rest != [] {
      assert rest[0] == body[k] == '.';
      forall i | 0 <= i < |rest| - 1 ensures IsDigit(rest[1..][i]) {
        assert rest[1..][i] == body[k + 1 + i];
      }
    }
    if rest == [] && k > 0 {
      assert IsDigit(body[0]);
      assert forall i :: 0 <= i < |body| ==> body[i] == body[..k][i];
    }
    if rest != [] && rest[0] == '.' && AllDigits(rest[1..]) && k + |rest| > 1 {
      forall i | 0 <= i < |body| && i != k ensures IsDigit(body[i]) {
        if i < k { assert body[i] == body[..k][i]; } else { assert body[i] == rest[1..][i - k - 1]; }
      }
      assert IsDigit(body[if k > 0 then 0 else 1]);
    }
  }

  /** A printed natural number reads back as itself. */
  lemma ParseDecimalNat(n: nat)
    ensures ParseDecimal(NatToString(n)) == Some(n as real)
  {
    var s := NatToString(n);
    assert Unsigned(s) == s;
    assert s[..DigitRun(s)] == s;
    ParseNatToString(n);
  }

  // ---------------------------------------------------------------- ordering

  /** Python's `a <= b` on strings: lexicographic by code point. */
  predicate LexLeq(a: string, b: string) {
    |a| == 0 || (|b| > 0 && (a[0] < b[0] || (a[0] == b[0] && LexLeq(a[1..], b[1..]))))
  }

  lemma {:induction false} LexLeqTotal(a: string, b: string)
    ensures LexLeq(a, b) || LexLeq(b, a)
  {
    if |a| > 0 && |b| > 0 && a[0] == b[0] {
      LexLeqTotal(a[1..], b[1..]);
    }
  }

  lemma {:induction false} LexLeqTransitive(a: string, b: string, c: string)
    requires LexLeq(a, b) && LexLeq(b, c)
    ensures LexLeq(a, c)
  {
    if |a| > 0 && a[0] == b[0] && b[0] == c[0] {
      LexLeqTransitive(a[1..], b[1..], c[1..]);
    }
  }

  lemma {:induction false} LexLeqAntisymmetric(a: string, b: string)
    requires LexLeq(a, b) && LexLeq(b, a)
    ensures a == b
  {
    if |a| > 0 {
      LexLeqAntisymmetric(a[1..], b[1..]);
      assert a == [a[0]] + a[1..] && b == [b[0]] + b[1..];
    }
  }
}
