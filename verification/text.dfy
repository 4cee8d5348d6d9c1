/** String helpers shared by the model: Python's whitespace class and
    `str.strip()`, `str.lstrip(chars)`, `str.startswith`, and decimal digits. */
module Text {

  /** The characters for which Python's `str.isspace()` holds; the same set is
      matched by `\s` in a `str` regular expression. */
  predicate IsSpace(c: char) {
    || c == ' '
    || ('\t' <= c <= '\r')
    || ('\U{1c}' <= c <= '\U{1f}')
    || c == '\U{85}'
    || c == '\U{a0}'
    || c == '\U{1680}'
    || ('\U{2000}' <= c <= '\U{200a}')
    || c == '\U{2028}'
    || c == '\U{2029}'
    || c == '\U{202f}'
    || c == '\U{205f}'
    || c == '\U{3000}'
  }

  /** The character classes the build script's patterns scan for. */
  datatype CharClass =
    | Whitespace        // `\s`, and what `str.strip()` removes
    | Only(c: char)     // the `chars` argument of `str.lstrip`
    | FileNameChar      // `[A-Za-z0-9._-]`
    | NotFileNameChar   // `[^A-Za-z0-9._-]`
    | NotQuote          // `[^'"]`
    | Digit             // `[0-9]`

  /** The class `[A-Za-z0-9._-]`. */
  predicate IsFileNameChar(c: char) {
    ('A' <= c <= 'Z') || ('a' <= c <= 'z') || ('0' <= c <= '9') || c == '.' || c == '_' || c == '-'
  }

  predicate IsQuote(c: char) {
    c == '\'' || c == '"'
  }

  predicate In(c: char, k: CharClass) {
    match k
    case Whitespace => IsSpace(c)
    case Only(x) => c == x
    case FileNameChar => IsFileNameChar(c)
    case NotFileNameChar => !IsFileNameChar(c)
    case NotQuote => !IsQuote(c)
    case Digit => IsDigit(c)
  }

  /** Every character of `s` is in class `k`. */
  predicate All(s: string, k: CharClass) {
    forall i :: 0 <= i < |s| ==> In(s[i], k)
  }

  predicate StartsWith(s: string, prefix: string) {
    |prefix| <= |s| && s[..|prefix|] == prefix
  }

  /** A string that starts with `prefix` is `prefix` followed by the rest. */
  lemma StartsWithJoin(s: string, prefix: string)
    requires StartsWith(s, prefix)
    ensures s == prefix + s[|prefix|..]
  {
    SplitAt(s, |prefix|);
  }

  lemma StartsWithConcat(prefix: string, t: string)
    ensures StartsWith(prefix + t, prefix)
  {
    assert (prefix + t)[..|prefix|] == prefix;
  }

  lemma AllConcat(a: string, b: string, k: CharClass)
    requires All(a, k) && All(b, k)
    ensures All(a + b, k)
  {
    assert forall i :: |a| <= i < |a + b| ==> (a + b)[i] == b[i - |a|];
  }

  lemma HeadTail(s: string)
    requires s != []
    ensures s == [s[0]] + s[1..]
  {
  }

  lemma Concat3(a: string, b: string, c: string)
    ensures a + (b + c) == a + b + c
  {
  }

  lemma SplitAt(s: string, n: nat)
    requires n <= |s|
    ensures s == s[..n] + s[n..]
  {
  }

  /** Drops the longest prefix of `s` whose characters all satisfy `p`. */
  function DropWhile(s: string, p: CharClass): (r: string)
    ensures |r| <= |s| && r == s[|s| - |r|..]
    ensures r == [] || !In(r[0], p)
    ensures All(s[..|s| - |r|], p)
    decreases |s|
  {
    if |s| > 0 && In(s[0], p) then
      var r := DropWhile(s[1..], p);
      assert s[1..][..|s| - 1 - |r|] == s[1..|s| - |r|];
      r
    else
      s
  }

  /** Drops the longest suffix of `s` whose characters all satisfy `p`. */
  function DropWhileEnd(s: string, p: CharClass): (r: string)
    ensures |r| <= |s| && r == s[..|r|]
    ensures r == [] || !In(r[|r| - 1], p)
    ensures All(s[|r|..], p)
    decreases |s|
  {
    if |s| > 0 && In(s[|s| - 1], p) then
      var r := DropWhileEnd(s[..|s| - 1], p);
      assert forall k :: |r| <= k < |s| - 1 ==> s[k] == s[..|s| - 1][|r|..][k - |r|];
      r
    else
      s
  }

  /** Dropping a run of `p`-characters stops exactly where the run ends. */
  lemma {:induction false} DropWhileStopsAfterRun(run: string, t: string, p: CharClass)
    requires All(run, p)
    requires t == [] || !In(t[0], p)
    ensures DropWhile(run + t, p) == t
    decreases |run|
  {
    if run == [] {
      assert run + t == t;
    } else {
      assert (run + t)[1..] == run[1..] + t;
      DropWhileStopsAfterRun(run[1..], t, p);
    }
  }

  /** Dropping a trailing run of `p`-characters stops exactly where the run starts. */
  lemma {:induction false} DropWhileEndStopsBeforeRun(t: string, run: string, p: CharClass)
    requires All(run, p)
    requires t == [] || !In(t[|t| - 1], p)
    ensures DropWhileEnd(t + run, p) == t
    decreases |run|
  {
    if run == [] {
      assert t + run == t;
    } else {
      var s := t + run;
      assert s[|s| - 1] == run[|run| - 1];
      assert s[..|s| - 1] == t + run[..|run| - 1];
      DropWhileEndStopsBeforeRun(t, run[..|run| - 1], p);
    }
  }

  /** A string with no whitespace at either end. */
  predicate IsStripped(s: string) {
    s == [] || (!IsSpace(s[0]) && !IsSpace(s[|s| - 1]))
  }

  /** Python's `str.strip()` with no argument. */
  function Strip(s: string): (r: string)
    ensures IsStripped(r)
    ensures |r| <= |s|
  {
    DropWhileEnd(DropWhile(s, Whitespace), Whitespace)
  }

  /** `Strip` removes exactly the surrounding whitespace: whatever stripped text
      is padded with whitespace on both sides, stripping gives it back. */
  lemma {:induction false} StripPadded(front: string, m: string, back: string)
    requires All(front, Whitespace) && All(back, Whitespace)
    requires IsStripped(m)
    ensures Strip(front + m + back) == m
  {
    if m == [] {
      assert front + m + back == (front + back) + [];
      assert All(front + back, Whitespace) by {
        forall k | 0 <= k < |front + back| ensures In((front + back)[k], Whitespace) {
          if k >= |front| { assert (front + back)[k] == back[k - |front|]; }
        }
      }
      DropWhileStopsAfterRun(front + back, [], Whitespace);
    } else {
      assert front + m + back == front + (m + back);
      DropWhileStopsAfterRun(front, m + back, Whitespace);
      DropWhileEndStopsBeforeRun(m, back, Whitespace);
    }
  }

  /** The converse of `StripPadded`: `Strip` only ever removes whitespace,
      and only from the two ends. */
  lemma StripSound(s: string) returns (front: string, back: string)
    ensures s == front + Strip(s) + back
    ensures All(front, Whitespace) && All(back, Whitespace)
  {
    var t := DropWhile(s, Whitespace);
    var m := Strip(s);
    front := s[..|s| - |t|];
    back := t[|m|..];
    assert t == m + back by { SplitAt(t, |m|); }
    assert s == front + t by { SplitAt(s, |s| - |t|); }
    Concat3(front, m, back);
  }

  /** Stripping leaves nothing exactly when the text is all whitespace. */
  lemma StripEmpty(s: string)
    ensures Strip(s) == [] <==> All(s, Whitespace)
  {
    if All(s, Whitespace) {
      assert [] + [] + s == s;
      StripPadded([], [], s);
    } else {
      var t := DropWhile(s, Whitespace);
      assert t != [];
    }
  }

  /** Stripping twice is the same as stripping once. */
  lemma StripIdempotent(s: string)
    ensures Strip(Strip(s)) == Strip(s)
  {
    var m := Strip(s);
    assert [] + m + [] == m;
    StripPadded([], m, []);
  }

  /** Python's `str.lstrip(chars)` for a one-character `chars`. */
  function LStripChar(s: string, c: char): (r: string)
    ensures |r| <= |s| && r == s[|s| - |r|..]
    ensures r == [] || r[0] != c
    ensures forall k :: 0 <= k < |s| - |r| ==> s[k] == c
  {
    var r := DropWhile(s, Only(c));
    assert forall k :: 0 <= k < |s| - |r| ==> s[..|s| - |r|][k] == s[k];
    r
  }

  /** `lstrip` removes exactly a leading run of the character. */
  lemma LStripCharAfterRun(run: string, t: string, c: char)
    requires forall k :: 0 <= k < |run| ==> run[k] == c
    requires t == [] || t[0] != c
    ensures LStripChar(run + t, c) == t
  {
    DropWhileStopsAfterRun(run, t, Only(c));
  }

  /** The length of the longest prefix of `s` whose characters are all in `p`. */
  function SpanLength(s: string, p: CharClass): (n: nat)
    ensures n <= |s|
  {
    if s != [] && In(s[0], p) then 1 + SpanLength(s[1..], p) else 0
  }

  lemma {:induction false} SpanLengthBounds(s: string, p: CharClass)
    ensures All(s[..SpanLength(s, p)], p)
    ensures SpanLength(s, p) == |s| || !In(s[SpanLength(s, p)], p)
  {
    if s != [] && In(s[0], p) {
      SpanLengthBounds(s[1..], p);
      var n := SpanLength(s, p);
      assert forall k :: 1 <= k < n ==> s[k] == s[1..][k - 1];
    }
  }

  /** The span of `run + t` is exactly `run` when `t` does not continue it. */
  lemma {:induction false} SpanLengthAfterRun(run: string, t: string, p: CharClass)
    requires All(run, p)
    requires t == [] || !In(t[0], p)
    ensures SpanLength(run + t, p) == |run|
  {
    if run != [] {
      assert (run + t)[1..] == run[1..] + t;
      SpanLengthAfterRun(run[1..], t, p);
    } else {
      assert run + t == t;
    }
  }

  predicate IsDigit(c: char) {
    '0' <= c <= '9'
  }

  function DigitValue(c: char): (d: nat)
    requires IsDigit(c)
    ensures d < 10
  {
    c as int - '0' as int
  }

  function DigitChar(d: nat): (c: char)
    requires d < 10
    ensures IsDigit(c) && DigitValue(c) == d
  {
    ('0' as int + d) as char
  }

  /** The value of a string of decimal digits, most significant first
      (as Python's `int()` reads one). */
  function DecimalValue(s: string): nat
    requires All(s, Digit)
  {
    if |s| == 0 then 0
    else DecimalValue(s[..|s| - 1]) * 10 + DigitValue(s[|s| - 1])
  }

  /** Digits with no superfluous leading zero, as `str(n)` writes them. */
  predicate IsCanonicalDecimal(s: string) {
    s != [] && All(s, Digit) && (|s| > 1 ==> s[0] != '0')
  }

  /** The decimal rendering of `n` with no leading zeros (Python's `str(n)`);
      reading it back gives `n`. */
  function NatToDecimal(n: nat): (r: string)
    ensures IsCanonicalDecimal(r)
    ensures DecimalValue(r) == n
  {
    if n < 10 then [DigitChar(n)]
    else
      var r := NatToDecimal(n / 10) + [DigitChar(n % 10)];
      assert r[..|r| - 1] == NatToDecimal(n / 10);
      r
  }

  /** A digit string whose first digit is not zero has a positive value. */
  lemma {:induction false} LeadingNonZeroPositive(s: string)
    requires s != [] && All(s, Digit) && s[0] != '0'
    ensures DecimalValue(s) > 0
  {
    if |s| > 1 {
      var p := s[..|s| - 1];
      assert p[0] == s[0];
      LeadingNonZeroPositive(p);
    }
  }

  /** A canonical digit string is the rendering of its own value, so
      `NatToDecimal` and `DecimalValue` are inverse on canonical strings. */
  lemma {:induction false} CanonicalDecimalRoundTrip(s: string)
    requires IsCanonicalDecimal(s)
    ensures NatToDecimal(DecimalValue(s)) == s
  {
    var last := s[|s| - 1];
    var p := s[..|s| - 1];
    if |s| == 1 {
      assert DigitChar(DigitValue(last)) == last;
    } else {
      assert p[0] == s[0];
      LeadingNonZeroPositive(p);
      CanonicalDecimalRoundTrip(p);
      var n := DecimalValue(s);
      assert n / 10 == DecimalValue(p) && n % 10 == DigitValue(last);
      assert DigitChar(DigitValue(last)) == last;
      assert s == p + [last];
    }
  }
}
