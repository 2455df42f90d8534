/**
 * The character classes and string helpers the parser relies on: Rust's
 * `str::trim`, nom's `alpha1`/`digit1`/`alphanumeric1`/`multispace1`
 * character tests, and the decimal reading of `str::parse`.
 */
module Text {

  /** Rust's `char::is_whitespace`: the Unicode White_Space property. */
  predicate IsWhitespace(c: char) {
    || '\t' <= c <= '\r'
    || c == ' '
    || c == '\U{0085}'
    || c == '\U{00A0}'
    || c == '\U{1680}'
    || '\U{2000}' <= c <= '\U{200A}'
    || c == '\U{2028}'
    || c == '\U{2029}'
    || c == '\U{202F}'
    || c == '\U{205F}'
    || c == '\U{3000}'
  }

  /** The characters nom's `multispace1` consumes. */
  predicate IsMultispace(c: char) {
    c == ' ' || c == '\t' || c == '\r' || c == '\n'
  }

  /** ASCII letters, as nom's `alpha1` tests them. */
  predicate IsAlpha(c: char) {
    'a' <= c <= 'z' || 'A' <= c <= 'Z'
  }

  /** ASCII decimal digits, as nom's `digit1` tests them. */
  predicate IsDigit(c: char) {
    '0' <= c <= '9'
  }

  predicate IsAlphanumeric(c: char) {
    IsAlpha(c) || IsDigit(c)
  }

  /** The character classes of nom's `*1` recognisers. */
  datatype CharClass = Alpha | Digit | Alphanumeric | Multispace

  predicate InClass(c: char, k: CharClass) {
    match k
    case Alpha => IsAlpha(c)
    case Digit => IsDigit(c)
    case Alphanumeric => IsAlphanumeric(c)
    case Multispace => IsMultispace(c)
  }

  /** Every multispace character is whitespace to `str::trim`; no letter or digit is. */
  lemma ClassesAndWhitespace(c: char)
    ensures IsMultispace(c) ==> IsWhitespace(c)
    ensures IsAlphanumeric(c) ==> !IsWhitespace(c) && !IsMultispace(c)
  {
  }

  /** Length of the longest prefix of `s` whose characters are all in class `k`. */
  function RunLength(s: string, k: CharClass): (n: nat)
    ensures n <= |s|
    ensures n < |s| ==> !InClass(s[n], k)
  {
    if s != [] && InClass(s[0], k) then 1 + RunLength(s[1..], k) else 0
  }

  /** The run is maximal: every character before it is in the class and the next one is not. */
  lemma {:induction false} RunLengthSpec(s: string, k: CharClass)
    ensures forall i :: 0 <= i < RunLength(s, k) ==> InClass(s[i], k)
    ensures RunLength(s, k) < |s| ==> !InClass(s[RunLength(s, k)], k)
  {
    if s != [] && InClass(s[0], k) {
      RunLengthSpec(s[1..], k);
    }
  }

  /** A run of class `k` followed by a character outside it has exactly the run's length. */
  lemma {:induction false} RunLengthConcat(w: string, t: string, k: CharClass)
    requires forall i :: 0 <= i < |w| ==> InClass(w[i], k)
    requires t == [] || !InClass(t[0], k)
    ensures RunLength(w + t, k) == |w|
  {
    if w != [] {
      assert (w + t)[1..] == w[1..] + t;
      RunLengthConcat(w[1..], t, k);
    } else {
      assert w + t == t;
    }
  }

  /** The two halves of a concatenation. */
  lemma SplitAt(a: string, b: string)
    ensures (a + b)[..|a|] == a && (a + b)[|a|..] == b
  {
  }

  /** What follows a leading character. */
  lemma AfterFirst(c: char, a: string, b: string)
    ensures ([c] + a + b)[1..] == a + b
  {
  }

  /** `s` with its leading whitespace removed (`str::trim_start`). */
  function TrimStart(s: string): (r: string)
    ensures |r| <= |s|
  {
    if s != [] && IsWhitespace(s[0]) then TrimStart(s[1..]) else s
  }

  /** `s` with its trailing whitespace removed (`str::trim_end`). */
  function TrimEnd(s: string): (r: string)
    ensures |r| <= |s|
  {
    if s != [] && IsWhitespace(s[|s| - 1]) then TrimEnd(s[..|s| - 1]) else s
  }

  /** `str::trim`: whitespace removed from both ends. */
  function Trim(s: string): (r: string)
    ensures |r| <= |s|
  {
    TrimEnd(TrimStart(s))
  }

  /** `TrimStart` drops the longest all-whitespace prefix. */
  lemma {:induction false} TrimStartSpec(s: string)
    ensures var r := TrimStart(s);
      && r == s[|s| - |r|..]
      && (forall i :: 0 <= i < |s| - |r| ==> IsWhitespace(s[i]))
      && (r == [] || !IsWhitespace(r[0]))
  {
    if s != [] && IsWhitespace(s[0]) {
      TrimStartSpec(s[1..]);
    }
  }

  /** `TrimEnd` drops the longest all-whitespace suffix. */
  lemma {:induction false} TrimEndSpec(s: string)
    ensures var r := TrimEnd(s);
      && r == s[..|r|]
      && (forall i :: |r| <= i < |s| ==> IsWhitespace(s[i]))
      && (r == [] || !IsWhitespace(r[|r| - 1]))
  {
    if s != [] && IsWhitespace(s[|s| - 1]) {
      TrimEndSpec(s[..|s| - 1]);
    }
  }

  /**
   * What `Trim` keeps is a contiguous piece of `s` that neither starts nor
   * ends with whitespace, and everything it drops is whitespace.
   */
  lemma TrimSpec(s: string)
    ensures var start := |s| - |TrimStart(s)|; var r := Trim(s);
            && r == s[start..start + |r|]
            && (r == [] || (!IsWhitespace(r[0]) && !IsWhitespace(r[|r| - 1])))
            && (forall i :: 0 <= i < start ==> IsWhitespace(s[i]))
            && (forall i :: start + |r| <= i < |s| ==> IsWhitespace(s[i]))
  {
    var t := TrimStart(s);
    TrimStartSpec(s);
    TrimEndSpec(t);
    MiddlePiece(s, t, TrimEnd(t));
  }

  /** A prefix `r` of a suffix `t` of `s` is the slice of `s` between the two cut points. */
  lemma MiddlePiece(s: string, t: string, r: string)
    requires |r| <= |t| <= |s| && t == s[|s| - |t|..] && r == t[..|r|]
    requires forall i :: |r| <= i < |t| ==> IsWhitespace(t[i])
    ensures r == s[|s| - |t|..|s| - |t| + |r|]
    ensures forall i :: |s| - |t| + |r| <= i < |s| ==> IsWhitespace(s[i])
  {
    var start := |s| - |t|;
    forall i | start + |r| <= i < |s|
      ensures IsWhitespace(s[i])
    {
      assert s[i] == t[i - start];
    }
  }

  /** A string that neither starts nor ends with whitespace is its own trim. */
  lemma {:induction false} TrimUnchanged(s: string)
    requires s == [] || (!IsWhitespace(s[0]) && !IsWhitespace(s[|s| - 1]))
    ensures Trim(s) == s
  {
  }

  /** Leading whitespace before a non-whitespace character is all that `TrimStart` drops. */
  lemma {:induction false} TrimStartSkips(p: string, t: string)
    requires forall i :: 0 <= i < |p| ==> IsWhitespace(p[i])
    requires t == [] || !IsWhitespace(t[0])
    ensures TrimStart(p + t) == t
  {
    if p != [] {
      assert (p + t)[1..] == p[1..] + t;
      TrimStartSkips(p[1..], t);
    } else {
      assert p + t == t;
    }
  }

  /** Trailing whitespace after a non-whitespace character is all that `TrimEnd` drops. */
  lemma {:induction false} TrimEndSkips(t: string, q: string)
    requires forall i :: 0 <= i < |q| ==> IsWhitespace(q[i])
    requires t == [] || !IsWhitespace(t[|t| - 1])
    ensures TrimEnd(t + q) == t
  {
    if q != [] {
      var front := q[..|q| - 1];
      assert (t + q)[..|t + q| - 1] == t + front;
      TrimEndSkips(t, front);
    } else {
      assert t + q == t;
    }
  }

  /** Trimming removes exactly the whitespace around a text that neither starts nor ends with whitespace. */
  lemma TrimAround(p: string, c: string, q: string)
    requires forall i :: 0 <= i < |p| ==> IsWhitespace(p[i])
    requires forall i :: 0 <= i < |q| ==> IsWhitespace(q[i])
    requires c != [] && !IsWhitespace(c[0]) && !IsWhitespace(c[|c| - 1])
    ensures Trim(p + c + q) == c
  {
    assert p + c + q == p + (c + q);
    TrimStartSkips(p, c + q);
    TrimEndSkips(c, q);
  }

  /** A text that is its own trim neither starts nor ends with whitespace. */
  lemma TrimmedEnds(s: string)
    requires s != [] && Trim(s) == s
    ensures !IsWhitespace(s[0]) && !IsWhitespace(s[|s| - 1])
  {
    TrimSpec(s);
    var r := Trim(s);
    assert r[0] == s[0] && r[|r| - 1] == s[|s| - 1];
  }

  /** A text that starts with a non-whitespace character still starts with it after trimming. */
  lemma TrimKeepsFirst(s: string)
    requires s != [] && !IsWhitespace(s[0])
    ensures Trim(s) != [] && Trim(s)[0] == s[0]
  {
    TrimSpec(s);
  }

  /** Trimming twice is trimming once. */
  lemma TrimIdempotent(s: string)
    ensures Trim(Trim(s)) == Trim(s)
  {
    TrimSpec(s);
    TrimUnchanged(Trim(s));
  }

  /** The value of an ASCII digit (0 for any other character, which the parser never passes). */
  function DigitValue(c: char): (d: nat)
    ensures d < 10
  {
    if IsDigit(c) then (c as int - '0' as int) as nat else 0
  }

  /** The digit for a value below ten. */
  function DigitChar(d: nat): (c: char)
    requires d < 10
    ensures IsDigit(c) && DigitValue(c) == d
  {
    ('0' as int + d) as char
  }

  /** The number a string of ASCII digits denotes (leading zeros allowed), as `str::parse` reads it. */
  function DecimalValue(s: string): nat {
    if s == [] then 0 else 10 * DecimalValue(s[..|s| - 1]) + DigitValue(s[|s| - 1])
  }

  /** The shortest decimal spelling of `n`. */
  function DecimalString(n: nat): (s: string)
    ensures s != [] && forall i :: 0 <= i < |s| ==> IsDigit(s[i])
  {
    if n < 10 then [DigitChar(n)] else DecimalString(n / 10) + [DigitChar(n % 10)]
  }

  /** Reading back the spelling of `n` gives `n`. */
  lemma {:induction false} DecimalRoundTrip(n: nat)
    ensures DecimalValue(DecimalString(n)) == n
  {
    if n >= 10 {
      var s := DecimalString(n);
      assert s[..|s| - 1] == DecimalString(n / 10);
      DecimalRoundTrip(n / 10);
    }
  }

  /** A string with a leading zero and more digits reads as what follows the zero. */
  lemma {:induction false} LeadingZero(s: string)
    ensures DecimalValue("0" + s) == DecimalValue(s)
  {
    if s != [] {
      var front := s[..|s| - 1];
      assert ("0" + s)[..|s|] == "0" + front;
      LeadingZero(front);
    }
  }
}
