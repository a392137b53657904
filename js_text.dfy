/**
 * The JavaScript string primitives the page-range editor depends on:
 * the global `parseInt` called without a radix, the decimal text of an
 * integral Number (what a template literal prints), and
 * `String.prototype.replace` with a string pattern.
 */
module JsText {
  import opened Wrappers

  /** ECMAScript white space and line terminators, which `parseInt` skips. */
  predicate IsJsSpace(c: char) {
    || c == ' ' || c == '\t' || c == '\n' || c == '\U{000B}' || c == '\U{000C}' || c == '\r'
    || c == '\U{00A0}' || c == '\U{1680}' || ('\U{2000}' <= c <= '\U{200A}')
    || c == '\U{2028}' || c == '\U{2029}' || c == '\U{202F}' || c == '\U{205F}'
    || c == '\U{3000}' || c == '\U{FEFF}'
  }

  /** The string with its leading white space removed. */
  function TrimStart(s: string): (t: string)
    ensures |t| <= |s| && t == s[|s| - |t|..]
    ensures forall k :: 0 <= k < |s| - |t| ==> IsJsSpace(s[k])
    ensures t != [] ==> !IsJsSpace(t[0])
  {
    if s != [] && IsJsSpace(s[0]) then TrimStart(s[1..]) else s
  }

  /** The value of `c` as a digit of the radix: '0'..'9', then 'a'..'z' or 'A'..'Z' for 10..35. */
  function DigitValue(c: char, radix: nat): (d: Option<nat>)
    ensures d.Some? ==> d.value < radix
  {
    var v: nat :=
      if '0' <= c <= '9' then c as int - '0' as int
      else if 'a' <= c <= 'z' then c as int - 'a' as int + 10
      else if 'A' <= c <= 'Z' then c as int - 'A' as int + 10
      else 36;
    if v < radix then Some(v) else None
  }

  predicate AllDigits(s: string, radix: nat) {
    forall k :: 0 <= k < |s| ==> DigitValue(s[k], radix).Some?
  }

  /** The length of the longest prefix of `s` made of digits of the radix. */
  function DigitRun(s: string, radix: nat): (n: nat)
    ensures n <= |s|
    ensures AllDigits(s[..n], radix)
    ensures n < |s| ==> DigitValue(s[n], radix).None?
  {
    if s != [] && DigitValue(s[0], radix).Some? then
      var n := 1 + DigitRun(s[1..], radix);
      assert s[..n] == [s[0]] + s[1..][..n - 1];
      n
    else 0
  }

  /** The number a string of digits denotes in the radix, most significant digit first. */
  function DigitsValue(s: string, radix: nat): nat
    requires AllDigits(s, radix)
  {
    if s == [] then 0
    else DigitsValue(s[..|s| - 1], radix) * radix + DigitValue(s[|s| - 1], radix).value
  }

  /** The digits at the head of `w` read in the radix; None when `w` does not start with one. */
  function ParseDigits(w: string, radix: nat): Option<nat> {
    var n := DigitRun(w, radix);
    if n == 0 then None else Some(DigitsValue(w[..n], radix))
  }

  /** An unsigned numeral: hexadecimal after a "0x" or "0X" prefix, decimal otherwise. */
  function ParseMagnitude(u: string): Option<nat> {
    if |u| >= 2 && u[0] == '0' && (u[1] == 'x' || u[1] == 'X') then ParseDigits(u[2..], 16)
    else ParseDigits(u, 10)
  }

  /** An optional '-' or '+' sign, then an unsigned numeral. */
  function ParseSigned(t: string): Option<int> {
    if t != [] && t[0] == '-' then
      match ParseMagnitude(t[1..])
      case None => None
      case Some(m) => Some(-(m as int))
    else if t != [] && t[0] == '+' then ParseMagnitude(t[1..])
    else ParseMagnitude(t)
  }

  /**
   * `parseInt(s)`: skip leading white space, take an optional sign, switch to
   * radix 16 after a "0x" or "0X" prefix, then read the longest run of digits;
   * no digit at all gives NaN (None). Trailing text after the digits is ignored.
   */
  function ParseInt(s: string): Option<int> {
    ParseSigned(TrimStart(s))
  }

  /** Text made of white space only, the empty text included, reads as NaN. */
  lemma ParseIntOfBlank(s: string)
    requires forall k :: 0 <= k < |s| ==> IsJsSpace(s[k])
    ensures ParseInt(s).None?
  {
    ParseIntSkipsLeadingSpace(s, "");
    assert s + "" == s;
  }

  /** Leading white space does not change what `parseInt` reads. */
  lemma {:induction false} ParseIntSkipsLeadingSpace(w: string, s: string)
    requires forall k :: 0 <= k < |w| ==> IsJsSpace(w[k])
    ensures ParseInt(w + s) == ParseInt(s)
  {
    TrimStartSkipsSpace(w, s);
  }

  lemma TrimStartStep(s: string)
    requires s != [] && IsJsSpace(s[0])
    ensures TrimStart(s) == TrimStart(s[1..])
  {
  }

  lemma {:induction false} TrimStartSkipsSpace(w: string, s: string)
    requires forall k :: 0 <= k < |w| ==> IsJsSpace(w[k])
    ensures TrimStart(w + s) == TrimStart(s)
  {
    if w == [] {
      assert w + s == s;
    } else {
      var ws := w + s;
      assert ws[0] == w[0];
      TrimStartStep(ws);
      assert ws[1..] == w[1..] + s;
      var tail := w[1..];
      assert forall k :: 0 <= k < |tail| ==> IsJsSpace(tail[k]) by {
        forall k | 0 <= k < |tail| ensures IsJsSpace(tail[k]) {
          assert tail[k] == w[k + 1];
        }
      }
      TrimStartSkipsSpace(tail, s);
    }
  }

  function DecimalDigit(d: nat): (c: char)
    requires d < 10
    ensures DigitValue(c, 10) == Some(d)
  {
    ('0' as int + d) as char
  }

  /** The decimal text of a natural number, without leading zeros. */
  function NatToDecimal(n: nat): (s: string)
    ensures s != []
    ensures forall k :: 0 <= k < |s| ==> '0' <= s[k] <= '9'
    ensures s[0] == '0' ==> n == 0
  {
    if n < 10 then [DecimalDigit(n)] else NatToDecimal(n / 10) + [DecimalDigit(n % 10)]
  }

  /** The text a template literal gives an integral Number: a '-' sign, then its decimal digits. */
  function IntToString(n: int): (s: string)
    ensures s != []
    ensures n >= 0 ==> forall k :: 0 <= k < |s| ==> '0' <= s[k] <= '9'
    ensures n < 0 ==> s[0] == '-'
  {
    if n < 0 then "-" + NatToDecimal(-n) else NatToDecimal(n)
  }

  lemma {:induction false} DecimalValue(n: nat)
    ensures AllDigits(NatToDecimal(n), 10)
    ensures DigitsValue(NatToDecimal(n), 10) == n
  {
    var s := NatToDecimal(n);
    if n >= 10 {
      DecimalValue(n / 10);
      assert s[..|s| - 1] == NatToDecimal(n / 10);
    }
  }

  lemma DecimalDigitsParse(n: nat)
    ensures ParseMagnitude(NatToDecimal(n)) == Some(n)
  {
    var d := NatToDecimal(n);
    DecimalValue(n);
    assert !(|d| >= 2 && d[0] == '0');
    var r := DigitRun(d, 10);
    assert d[..|d|] == d;
  }

  lemma TrimStartOfWord(s: string)
    requires s != [] && !IsJsSpace(s[0])
    ensures TrimStart(s) == s
  {
  }

  lemma ParseSignedNegative(u: string, m: nat)
    requires ParseMagnitude(u) == Some(m)
    ensures ParseSigned("-" + u) == Some(-(m as int))
  {
    assert ("-" + u)[1..] == u;
  }

  lemma ParseSignedUnsigned(u: string)
    requires u != [] && '0' <= u[0] <= '9'
    ensures ParseSigned(u) == ParseMagnitude(u)
  {
  }

  /** `parseInt` reads back the text of every integer: it is a left inverse of IntToString. */
  lemma {:induction false} ParseIntOfDecimal(n: int)
    ensures ParseInt(IntToString(n)) == Some(n)
  {
    var s := IntToString(n);
    if n < 0 {
      var u := NatToDecimal(-n);
      assert s == "-" + u;
      TrimStartOfWord(s);
      DecimalDigitsParse(-n);
      ParseSignedNegative(u, -n);
    } else {
      assert s == NatToDecimal(n);
      TrimStartOfWord(s);
      ParseSignedUnsigned(s);
      DecimalDigitsParse(n);
    }
  }

  /** Different integers print differently. */
  lemma IntToStringInjective(a: int, b: int)
    requires IntToString(a) == IntToString(b)
    ensures a == b
  {
    ParseIntOfDecimal(a);
    ParseIntOfDecimal(b);
  }

  /** `pat` occurs in `s` starting at position `i`. */
  predicate OccursAt(s: string, pat: string, i: nat) {
    i + |pat| <= |s| && s[i..i + |pat|] == pat
  }

  lemma OccursAtShift(s: string, pat: string, j: nat)
    requires s != []
    ensures OccursAt(s, pat, j + 1) <==> OccursAt(s[1..], pat, j)
  {
    if j + 1 + |pat| <= |s| {
      assert s[j + 1..j + 1 + |pat|] == s[1..][j..j + |pat|];
    }
  }

  /** The position of the first occurrence of `pat` in `s`, as `indexOf` finds it. */
  function FirstOccurrence(s: string, pat: string): (r: Option<nat>)
    ensures r.Some? ==> OccursAt(s, pat, r.value)
    ensures r.Some? ==> forall j: nat :: j < r.value ==> !OccursAt(s, pat, j)
    ensures r.None? ==> forall j: nat :: !OccursAt(s, pat, j)
    decreases |s|
  {
    if |s| < |pat| then None
    else if s[..|pat|] == pat then Some(0)
    else
      var rest := FirstOccurrence(s[1..], pat);
      assert forall j: nat :: 1 <= j ==> (OccursAt(s, pat, j) <==> OccursAt(s[1..], pat, j - 1)) by {
        forall j: nat | 1 <= j ensures OccursAt(s, pat, j) <==> OccursAt(s[1..], pat, j - 1) {
          OccursAtShift(s, pat, j - 1);
        }
      }
      assert !OccursAt(s, pat, 0);
      match rest
      case None => None
      case Some(i) => Some(i + 1)
  }

  /** `s.replace(pat, rep)` with a string pattern: only the first occurrence is replaced. */
  function ReplaceFirst(s: string, pat: string, rep: string): (r: string)
    ensures FirstOccurrence(s, pat).None? ==> r == s
    ensures FirstOccurrence(s, pat).Some? ==>
      var i := FirstOccurrence(s, pat).value;
      r == s[..i] + rep + s[i + |pat|..]
  {
    match FirstOccurrence(s, pat)
    case None => s
    case Some(i) => s[..i] + rep + s[i + |pat|..]
  }

  /** Text in which `pat` does not occur is left as it is. */
  lemma ReplaceWithoutOccurrence(s: string, pat: string, rep: string)
    requires forall j: nat :: !OccursAt(s, pat, j)
    ensures ReplaceFirst(s, pat, rep) == s
  {
  }

  /** When `pat` first occurs right after `before`, exactly that occurrence is replaced. */
  lemma ReplaceFirstOccurrence(before: string, pat: string, after: string, rep: string)
    requires forall j: nat :: j < |before| ==> !OccursAt(before + pat + after, pat, j)
    ensures ReplaceFirst(before + pat + after, pat, rep) == before + rep + after
  {
    var s := before + pat + after;
    assert s[|before|..|before| + |pat|] == pat;
    assert OccursAt(s, pat, |before|);
    var i := FirstOccurrence(s, pat).value;
    assert i == |before|;
    assert s[..i] == before;
    assert s[i + |pat|..] == after;
  }
}
