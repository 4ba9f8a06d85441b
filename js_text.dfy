/**
 * The pieces of JavaScript's string built-ins that the bot relies on:
 * the white-space class `\s` of regular expressions (the same set
 * `parseInt` skips), the digit class `\d`, `parseInt` with no radix,
 * and `String.prototype.split` with a one-character separator.
 */
module JsText {
  import opened Wrappers

  /** WhiteSpace or LineTerminator in ECMAScript: what `\s` matches and what `parseInt` skips. */
  predicate IsJsSpace(c: char) {
    || c == '\t' || c == '\n' || c == '\U{000B}' || c == '\U{000C}' || c == '\r'
    || c == ' ' || c == '\U{00A0}' || c == '\U{1680}'
    || ('\U{2000}' <= c <= '\U{200A}')
    || c == '\U{2028}' || c == '\U{2029}' || c == '\U{202F}' || c == '\U{205F}'
    || c == '\U{3000}' || c == '\U{FEFF}'
  }

  /** The class `\d`: ASCII digits only. */
  predicate IsDecDigit(c: char) {
    '0' <= c <= '9'
  }

  predicate IsHexDigit(c: char) {
    IsDecDigit(c) || ('a' <= c <= 'f') || ('A' <= c <= 'F')
  }

  predicate AllSatisfy(s: string, p: char -> bool) {
    forall i :: 0 <= i < |s| ==> p(s[i])
  }

  function DigitValue(c: char): (d: nat)
    requires IsHexDigit(c)
    ensures d < 16
    ensures IsDecDigit(c) <==> d < 10
  {
    if IsDecDigit(c) then c as int - '0' as int
    else if 'a' <= c <= 'f' then c as int - 'a' as int + 10
    else c as int - 'A' as int + 10
  }

  /** Length of the longest prefix of `s` whose characters all satisfy `p`. */
  function Span(s: string, p: char -> bool): (n: nat)
    ensures n <= |s|
    ensures forall i :: 0 <= i < n ==> p(s[i])
    ensures n < |s| ==> !p(s[n])
  {
    if |s| > 0 && p(s[0]) then 1 + Span(s[1..], p) else 0
  }

  /** A prefix that satisfies `p`, followed by a character that does not, is exactly what Span measures. */
  lemma SpanAfterPrefix(x: string, y: string, p: char -> bool)
    requires AllSatisfy(x, p)
    requires |y| > 0 ==> !p(y[0])
    ensures Span(x + y, p) == |x|
  {
    if |y| > 0 {
      assert (x + y)[|x|] == y[0];
    }
  }

  /** What Span measures: a prefix that satisfies `p`, and the rest. */
  lemma SpanSplits(s: string, p: char -> bool)
    ensures AllSatisfy(s[..Span(s, p)], p)
    ensures s == s[..Span(s, p)] + s[Span(s, p)..]
  {
    var n := Span(s, p);
    assert forall i :: 0 <= i < n ==> s[..n][i] == s[i];
  }

  lemma SplitAround(s: string, k: nat)
    requires k < |s|
    ensures s == s[..k] + ([s[k]] + s[k + 1..])
  {
  }

  lemma SplitTwo(s: string)
    requires |s| >= 2
    ensures s == [s[0], s[1]] + s[2..]
  {
  }

  /** Value of a string of digits in the given radix, most significant digit first. */
  function DigitsValue(ds: string, radix: nat): nat
    requires radix == 10 || radix == 16
    requires forall i :: 0 <= i < |ds| ==> IsHexDigit(ds[i]) && DigitValue(ds[i]) < radix
  {
    if ds == [] then 0
    else DigitsValue(ds[..|ds| - 1], radix) * radix + DigitValue(ds[|ds| - 1])
  }

  /**
   * `parseInt(s)` with no radix argument: skip leading white space, take an
   * optional sign, then read an unsigned numeral. `None` stands for NaN.
   */
  function ParseInt(s: string): (r: Option<int>)
    ensures var t := s[Span(s, IsJsSpace)..];
      && (r.Some? ==> |t| > 0)
      && (r.Some? && r.value < 0 ==> t[0] == '-')
      && (|t| > 0 && IsDecDigit(t[0]) ==> r.None? || r.value >= 0)
      && (|t| > 0 && IsDecDigit(t[0]) && !(|t| >= 2 && t[0] == '0' && (t[1] == 'x' || t[1] == 'X')) ==> r.Some?)
  {
    var t := s[Span(s, IsJsSpace)..];
    var negative := |t| > 0 && t[0] == '-';
    var u := if |t| > 0 && (t[0] == '-' || t[0] == '+') then t[1..] else t;
    match ParseUnsigned(u)
    case None => None
    case Some(m) => Some(if negative then -(m as int) else m as int)
  }

  /**
   * The unsigned part of `parseInt`: radix 16 after a `0x`/`0X` prefix,
   * radix 10 otherwise, then the longest run of digits of that radix;
   * an empty run gives NaN (`None`).
   */
  function ParseUnsigned(u: string): (r: Option<nat>)
  {
    var hex := |u| >= 2 && u[0] == '0' && (u[1] == 'x' || u[1] == 'X');
    var body := if hex then u[2..] else u;
    var n := Span(body, if hex then IsHexDigit else IsDecDigit);
    if n == 0 then None
    else Some(DigitsValue(body[..n], if hex then 16 else 10))
  }

  function DecimalDigit(d: nat): (c: char)
    requires d < 10
    ensures IsDecDigit(c) && DigitValue(c) == d
  {
    ('0' as int + d) as char
  }

  /** The decimal numeral of `n`, as `String(n)` writes it. */
  function DecimalString(n: nat): (s: string)
    ensures |s| > 0
    ensures forall i :: 0 <= i < |s| ==> IsDecDigit(s[i])
    ensures s[0] == '0' ==> n == 0
  {
    if n < 10 then [DecimalDigit(n)]
    else DecimalString(n / 10) + [DecimalDigit(n % 10)]
  }

  lemma {:induction false} DecimalStringValue(n: nat)
    ensures DigitsValue(DecimalString(n), 10) == n
  {
    if n >= 10 {
      var s := DecimalString(n);
      assert s[..|s| - 1] == DecimalString(n / 10);
      DecimalStringValue(n / 10);
    }
  }

  /**
   * parseInt reads a run of decimal digits as its decimal value and ignores
   * whatever follows the first non-digit, except that "0" followed by an x
   * switches to hexadecimal.
   */
  lemma ParseIntDigits(ds: string, rest: string)
    requires |ds| > 0 && AllSatisfy(ds, IsDecDigit)
    requires |rest| > 0 ==> !IsDecDigit(rest[0])
    requires |rest| > 0 && ds == "0" ==> rest[0] != 'x' && rest[0] != 'X'
    ensures ParseInt(ds + rest) == Some(DigitsValue(ds, 10))
  {
    ParseUnsignedDigits(ds, rest);
    assert (ds + rest)[0] == ds[0];
    ParseIntOfUnsigned(ds + rest);
  }

  /** Without white space or sign in front, parseInt is the unsigned reading. */
  lemma ParseIntOfUnsigned(u: string)
    requires |u| > 0 && IsDecDigit(u[0])
    ensures ParseUnsigned(u).Some? ==> ParseInt(u) == Some(ParseUnsigned(u).value as int)
  {
    assert Span(u, IsJsSpace) == 0;
    assert u[0..] == u;
  }

  lemma ParseUnsignedDigits(ds: string, rest: string)
    requires |ds| > 0 && AllSatisfy(ds, IsDecDigit)
    requires |rest| > 0 ==> !IsDecDigit(rest[0])
    requires |rest| > 0 && ds == "0" ==> rest[0] != 'x' && rest[0] != 'X'
    ensures ParseUnsigned(ds + rest) == Some(DigitsValue(ds, 10))
  {
    var u := ds + rest;
    assert u[0] == ds[0];
    assert !(|u| >= 2 && u[0] == '0' && (u[1] == 'x' || u[1] == 'X')) by {
      if |ds| >= 2 {
        assert u[1] == ds[1];
      } else if |u| >= 2 {
        assert u[1] == rest[0];
      }
    }
    SpanAfterPrefix(ds, rest, IsDecDigit);
    assert u[..|ds|] == ds;
  }

  /** parseInt inverts the decimal rendering of a natural number. */
  lemma ParseIntDecimalString(n: nat)
    ensures ParseInt(DecimalString(n)) == Some(n)
  {
    ParseIntDigits(DecimalString(n), []);
    assert DecimalString(n) + [] == DecimalString(n);
    DecimalStringValue(n);
  }

  /** Index of the first `c` in `s`, or `|s|` when there is none. */
  function IndexOf(s: string, c: char): (i: nat)
    ensures i <= |s|
    ensures forall j :: 0 <= j < i ==> s[j] != c
    ensures c !in s[..i]
    ensures i < |s| ==> s[i] == c
  {
    if |s| == 0 then 0
    else if s[0] == c then 0
    else
      var j := IndexOf(s[1..], c);
      assert s[..1 + j] == [s[0]] + s[1..][..j];
      1 + j
  }

  /** `s.split(sep)`: the pieces between separators, empty pieces included. */
  function Split(s: string, sep: char): (parts: seq<string>)
    ensures |parts| >= 1
    ensures forall k :: 0 <= k < |parts| ==> sep !in parts[k]
    decreases |s|
  {
    var i := IndexOf(s, sep);
    if i == |s| then
      assert s[..i] == s;
      [s]
    else [s[..i]] + Split(s[i + 1..], sep)
  }

  /** `parts.join(sep)`. */
  function Join(parts: seq<string>, sep: char): string
    requires |parts| >= 1
  {
    if |parts| == 1 then parts[0] else parts[0] + ([sep] + Join(parts[1..], sep))
  }

  /** Split takes the text up to the first separator, then splits the rest. */
  lemma SplitAtFirst(s: string, sep: char)
    requires IndexOf(s, sep) < |s|
    ensures Split(s, sep) == [s[..IndexOf(s, sep)]] + Split(s[IndexOf(s, sep) + 1..], sep)
  {
  }

  /** Without a separator Split gives the text back whole. */
  lemma SplitWhole(s: string, sep: char)
    requires IndexOf(s, sep) == |s|
    ensures Split(s, sep) == [s]
  {
  }

  /** A first piece free of the separator ends where the separator comes. */
  lemma IndexOfAfterPiece(p: string, rest: string, sep: char)
    requires sep !in p
    ensures IndexOf(p + ([sep] + rest), sep) == |p|
  {
    var s := p + ([sep] + rest);
    assert s[|p|] == sep;
    assert forall j :: 0 <= j < |p| ==> s[j] == p[j];
  }

  lemma {:induction false} JoinSplit(s: string, sep: char)
    ensures Join(Split(s, sep), sep) == s
    decreases |s|
  {
    var i := IndexOf(s, sep);
    if i < |s| {
      var tail := Split(s[i + 1..], sep);
      SplitAtFirst(s, sep);
      JoinSplit(s[i + 1..], sep);
      assert ([s[..i]] + tail)[1..] == tail;
      SplitAround(s, i);
    } else {
      SplitWhole(s, sep);
    }
  }

  /** Split stops at the first separator after a piece free of it. */
  lemma SplitAfterPiece(p: string, rest: string, sep: char)
    requires sep !in p
    ensures Split(p + ([sep] + rest), sep) == [p] + Split(rest, sep)
  {
    var s := p + ([sep] + rest);
    IndexOfAfterPiece(p, rest, sep);
    SplitAtFirst(s, sep);
    assert s[|p| + 1..] == rest;
    assert s[..|p|] == p;
  }

  lemma {:induction false} SplitJoin(parts: seq<string>, sep: char)
    requires |parts| >= 1
    requires forall k :: 0 <= k < |parts| ==> sep !in parts[k]
    ensures Split(Join(parts, sep), sep) == parts
  {
    var p := parts[0];
    if |parts| == 1 {
      assert IndexOf(p, sep) == |p|;
      SplitWhole(p, sep);
    } else {
      SplitAfterPiece(p, Join(parts[1..], sep), sep);
      SplitJoin(parts[1..], sep);
      assert parts == [p] + parts[1..];
    }
  }
}
