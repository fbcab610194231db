/** The string operations the pages rely on: `String.prototype.trim` and the
    decimal text a template literal such as `${n}` produces for a
    non-negative integer. */
module JsString {

  /** The characters `trim` removes: ECMAScript's WhiteSpace (tab, vertical
      tab, form feed, space, no-break space, the byte order mark and the
      Unicode space separators) and LineTerminator (line feed, carriage
      return, line and paragraph separators). */
  predicate IsWhiteSpace(c: char) {
    var k := c as int;
    k == 0x09 || k == 0x0B || k == 0x0C || k == 0x20 || k == 0xA0 || k == 0xFEFF ||
    k == 0x1680 || (0x2000 <= k <= 0x200A) || k == 0x202F || k == 0x205F || k == 0x3000 ||
    k == 0x0A || k == 0x0D || k == 0x2028 || k == 0x2029
  }

  /** Drops the leading white space. */
  function TrimStart(s: string): (r: string)
    ensures |r| <= |s| && r == s[|s| - |r|..]
    ensures forall i :: 0 <= i < |s| - |r| ==> IsWhiteSpace(s[i])
    ensures r != [] ==> !IsWhiteSpace(r[0])
  {
    if s != [] && IsWhiteSpace(s[0]) then TrimStart(s[1..]) else s
  }

  /** Drops the trailing white space. */
  function TrimEnd(s: string): (r: string)
    ensures |r| <= |s| && r == s[..|r|]
    ensures forall i :: |r| <= i < |s| ==> IsWhiteSpace(s[i])
    ensures r != [] ==> !IsWhiteSpace(r[|r| - 1])
  {
    if s != [] && IsWhiteSpace(s[|s| - 1]) then TrimEnd(s[..|s| - 1]) else s
  }

  /** `r` is what remains of `s` once the white space before index `k` and
      after index `k + |r|` is cut off. */
  predicate TrimmedAt(s: string, r: string, k: int) {
    0 <= k && k + |r| <= |s| && r == s[k..k + |r|] &&
    (forall i :: 0 <= i < k ==> IsWhiteSpace(s[i])) &&
    (forall i :: k + |r| <= i < |s| ==> IsWhiteSpace(s[i]))
  }

  /** `s.trim()` */
  function Trim(s: string): (r: string)
    ensures exists k :: TrimmedAt(s, r, k)
    ensures r != [] ==> !IsWhiteSpace(r[0]) && !IsWhiteSpace(r[|r| - 1])
  {
    var t := TrimStart(s);
    var r := TrimEnd(t);
    TrimmedAtCompose(s, t, |s| - |t|, r, 0);
    r
  }

  /** Trimming a trimmed slice again trims the original. */
  lemma TrimmedAtCompose(s: string, t: string, k1: int, r: string, k2: int)
    requires TrimmedAt(s, t, k1) && TrimmedAt(t, r, k2)
    ensures TrimmedAt(s, r, k1 + k2)
  {
    var k := k1 + k2;
    forall i | 0 <= i < |r|
      ensures r[i] == s[k + i]
    {
      assert r[i] == t[k2 + i];
    }
    forall i | k1 <= i < k
      ensures IsWhiteSpace(s[i])
    {
      assert s[i] == t[i - k1];
    }
    forall i | k + |r| <= i < k1 + |t|
      ensures IsWhiteSpace(s[i])
    {
      assert s[i] == t[i - k1];
    }
  }

  /** `!s.trim()`: the trimmed string is empty, so falsy. */
  predicate IsBlank(s: string) {
    Trim(s) == ""
  }

  /** A string is blank exactly when every character of it is white space. */
  lemma {:induction false} BlankIffAllWhiteSpace(s: string)
    ensures IsBlank(s) <==> forall i :: 0 <= i < |s| ==> IsWhiteSpace(s[i])
  {
    var t := TrimStart(s);
    if t != [] {
      assert !IsWhiteSpace(t[0]);
      assert !IsWhiteSpace(s[|s| - |t|]);
    }
  }

  /** The digit character for a value below ten. */
  function DigitChar(d: nat): (c: char)
    requires d < 10
    ensures '0' <= c <= '9' && c as int - '0' as int == d
  {
    (48 + d) as char
  }

  predicate IsDigitString(s: string) {
    forall i :: 0 <= i < |s| ==> '0' <= s[i] <= '9'
  }

  /** The text `${n}` produces for a non-negative integer: its decimal digits,
      with no leading zero. */
  function NatToString(n: nat): (r: string)
    ensures |r| >= 1 && IsDigitString(r)
    ensures r[0] == '0' ==> n == 0 && r == "0"
    decreases n
  {
    if n < 10 then [DigitChar(n)] else NatToString(n / 10) + [DigitChar(n % 10)]
  }

  /** Reads a string of decimal digits back as a number. */
  function ParseDecimal(s: string): nat
    requires IsDigitString(s)
  {
    if s == [] then 0
    else ParseDecimal(s[..|s| - 1]) * 10 + (s[|s| - 1] as int - '0' as int)
  }

  /** The decimal text of a number reads back as that number, so distinct
      numbers are rendered as distinct texts. */
  lemma {:induction false} DecimalRoundTrip(n: nat)
    ensures ParseDecimal(NatToString(n)) == n
  {
    if n >= 10 {
      var r := NatToString(n);
      assert r[..|r| - 1] == NatToString(n / 10);
      DecimalRoundTrip(n / 10);
    }
  }

  lemma NatToStringInjective(m: nat, n: nat)
    requires NatToString(m) == NatToString(n)
    ensures m == n
  {
    DecimalRoundTrip(m);
    DecimalRoundTrip(n);
  }

  /** In a digit string followed by a separator, the separator is the first
      character that is not a digit. */
  lemma SeparatorPosition(x: string, u: string, sep: char)
    ensures |x| < |x + [sep] + u| && (x + [sep] + u)[|x|] == sep
    ensures forall i :: 0 <= i < |x| ==> (x + [sep] + u)[i] == x[i]
  {
  }

  /** Digit strings followed by a separator that is not a digit can be told
      apart: equal texts of that shape have equal digit prefixes and equal
      remainders. */
  lemma DigitsBeforeSeparator(x: string, u: string, y: string, v: string, sep: char)
    requires IsDigitString(x) && IsDigitString(y) && !('0' <= sep <= '9')
    requires x + [sep] + u == y + [sep] + v
    ensures x == y && u == v
  {
    var w := x + [sep] + u;
    SeparatorPosition(x, u, sep);
    SeparatorPosition(y, v, sep);
    if |x| == |y| {
      assert x == w[..|x|];
      assert u == w[|x| + 1..];
    }
  }
}
