/** Models of the JavaScript built-ins the reservation form calls: decimal text of a
    number (`String(n)`), `padStart`, `split`, `Number(...)` and `parseInt(...)`.
    Beside them are the text helpers their proofs need: `Join`, the inverse of
    `Split`; `TrimStart`/`TrimEnd`, the trimming `Number` and `parseInt` do first;
    and `IndexOf`/`LastIndexOf`, the searches that decide the registration email
    pattern. */
module JsText {

  import opened Options

  /** A JavaScript number as far as the forms use it: an integer or NaN.
      `undefined` compares like NaN (every relation is false), so it is NaN here too. */
  datatype JsNum = Num(value: int) | NaN

  /** `a < b`; false as soon as either side is NaN. */
  predicate Less(a: JsNum, b: JsNum) { a.Num? && b.Num? && a.value < b.value }

  /** `a >= b`; false as soon as either side is NaN. */
  predicate AtLeast(a: JsNum, b: JsNum) { a.Num? && b.Num? && a.value >= b.value }

  /** `a === b`; NaN is equal to nothing, itself included. */
  predicate StrictEquals(a: JsNum, b: JsNum) { a.Num? && b.Num? && a.value == b.value }

  // ---------------------------------------------------------------- decimal digits

  predicate IsDigit(c: char) { '0' <= c <= '9' }

  predicate AllDigits(s: string) { forall k :: 0 <= k < |s| ==> IsDigit(s[k]) }

  function DigitValue(c: char): (d: nat)
    requires IsDigit(c)
    ensures d < 10
  {
    c as int - '0' as int
  }

  function DigitChar(d: nat): (c: char)
    requires d < 10
    ensures IsDigit(c) && DigitValue(c) == d
  {
    ('0' as int + d) as char
  }

  /** The value of a decimal digit string, leading zeros allowed; 0 for "". */
  function DigitsValue(s: string): nat
    requires AllDigits(s)
  {
    if s == [] then 0 else 10 * DigitsValue(s[..|s| - 1]) + DigitValue(s[|s| - 1])
  }

  /** `String(n)` for a non-negative integer: its decimal digits. */
  function NatToString(n: nat): (r: string)
    ensures |r| > 0 && AllDigits(r) && DigitsValue(r) == n
    ensures r[0] != '0' || n == 0
  {
    if n < 10 then [DigitChar(n)]
    else
      var r := NatToString(n / 10) + [DigitChar(n % 10)];
      assert r[..|r| - 1] == NatToString(n / 10);
      r
  }

  /** `String(x)` for any integer: a minus sign before the digits of a negative one. */
  function IntToString(x: int): string
  {
    if x < 0 then "-" + NatToString(-x) else NatToString(x)
  }

  /** How many digits `String(n)` has for the widths the forms meet. */
  lemma NatToStringLength(n: nat)
    ensures n < 10 ==> |NatToString(n)| == 1
    ensures 10 <= n < 100 ==> |NatToString(n)| == 2
    ensures 1000 <= n < 10000 ==> |NatToString(n)| == 4
  {
    if n >= 10 {
      NatToStringLength(n / 10);
    }
  }

  // ---------------------------------------------------------------- padStart

  function Repeat(c: char, n: nat): (r: string)
    ensures |r| == n && forall k :: 0 <= k < n ==> r[k] == c
  {
    if n == 0 then [] else [c] + Repeat(c, n - 1)
  }

  /** `s.padStart(width, fill)` with a one-character filler. */
  function PadStart(s: string, width: nat, fill: char): (r: string)
    ensures |r| == if |s| >= width then |s| else width
    ensures r[|r| - |s|..] == s
    ensures forall k :: 0 <= k < |r| - |s| ==> r[k] == fill
  {
    if |s| >= width then s else Repeat(fill, width - |s|) + s
  }

  /** `String(n).padStart(2, "0")`. */
  function ZeroPad2(n: nat): string
  {
    PadStart(NatToString(n), 2, '0')
  }

  /** Zeros in front of a digit string leave its value unchanged. */
  lemma {:induction false} LeadingZerosValue(z: string, s: string)
    requires forall k :: 0 <= k < |z| ==> z[k] == '0'
    requires AllDigits(s)
    ensures AllDigits(z + s) && DigitsValue(z + s) == DigitsValue(s)
  {
    if s == [] {
      assert z + s == z;
      ZerosValue(z);
    } else {
      var w := z + s;
      assert w[..|w| - 1] == z + s[..|s| - 1];
      LeadingZerosValue(z, s[..|s| - 1]);
    }
  }

  lemma {:induction false} ZerosValue(z: string)
    requires forall k :: 0 <= k < |z| ==> z[k] == '0'
    ensures AllDigits(z) && DigitsValue(z) == 0
  {
    if z != [] {
      ZerosValue(z[..|z| - 1]);
    }
  }

  /** Zero padding keeps the value: the padded text is all digits and reads back as n,
      and it is exactly two characters long below 100. */
  lemma ZeroPad2Value(n: nat)
    ensures AllDigits(ZeroPad2(n)) && DigitsValue(ZeroPad2(n)) == n
    ensures n < 100 ==> |ZeroPad2(n)| == 2
  {
    var s := NatToString(n);
    NatToStringLength(n);
    if |s| < 2 {
      assert ZeroPad2(n) == Repeat('0', 2 - |s|) + s;
      LeadingZerosValue(Repeat('0', 2 - |s|), s);
    }
  }

  /** The two digits of a number below 100, as `String(n).padStart(2, "0")` writes them. */
  lemma ZeroPad2Digits(n: nat)
    requires n < 100
    ensures ZeroPad2(n) == [DigitChar(n / 10), DigitChar(n % 10)]
  {
    if n >= 10 {
      assert NatToString(n / 10) == [DigitChar(n / 10)];
    }
  }

  lemma NotAmongDigits(s: string, c: char)
    requires AllDigits(s) && !IsDigit(c)
    ensures c !in s
  {
  }

  // ---------------------------------------------------------------- searching

  /** `s.indexOf(c)`: the first position of c, None where JavaScript gives -1. */
  function IndexOf(s: string, c: char): (r: Option<nat>)
    ensures r.None? <==> c !in s
    ensures r.Some? ==> r.value < |s| && s[r.value] == c && c !in s[..r.value]
  {
    if s == [] then None
    else if s[0] == c then Some(0)
    else
      match IndexOf(s[1..], c)
      case None => None
      case Some(i) =>
        assert s[..i + 1] == [s[0]] + s[1..][..i];
        Some(i + 1)
  }

  /** `s.lastIndexOf(c)`: the last position of c, None where JavaScript gives -1. */
  function LastIndexOf(s: string, c: char): (r: Option<nat>)
    ensures r.None? <==> c !in s
    ensures r.Some? ==> r.value < |s| && s[r.value] == c && c !in s[r.value + 1..]
  {
    if s == [] then None
    else if s[|s| - 1] == c then Some(|s| - 1)
    else
      var r := LastIndexOf(s[..|s| - 1], c);
      assert s == s[..|s| - 1] + [s[|s| - 1]];
      r
  }

  // ---------------------------------------------------------------- split and join

  /** `parts.join(sep)` for a one-character separator. */
  function Join(parts: seq<string>, sep: char): string
  {
    if |parts| == 0 then ""
    else if |parts| == 1 then parts[0]
    else parts[0] + [sep] + Join(parts[1..], sep)
  }

  /** `s.split(sep)` for a one-character separator: at least one piece, no piece holds
      the separator, and joining the pieces gives s back. */
  function Split(s: string, sep: char): (parts: seq<string>)
    ensures |parts| >= 1
    ensures forall k :: 0 <= k < |parts| ==> sep !in parts[k]
    ensures Join(parts, sep) == s
    decreases |s|
  {
    match IndexOf(s, sep)
    case None => [s]
    case Some(i) =>
      var rest := Split(s[i + 1..], sep);
      var parts := [s[..i]] + rest;
      assert parts[1..] == rest;
      assert s == s[..i] + [sep] + s[i + 1..];
      parts
  }

  /** The other half of the round trip: splitting a join of separator-free pieces
      gives the pieces back. */
  lemma {:induction false} SplitJoin(parts: seq<string>, sep: char)
    requires |parts| >= 1
    requires forall k :: 0 <= k < |parts| ==> sep !in parts[k]
    ensures Split(Join(parts, sep), sep) == parts
    decreases |parts|
  {
    if |parts| > 1 {
      var s := Join(parts, sep);
      assert s == parts[0] + [sep] + Join(parts[1..], sep);
      assert s[..|parts[0]|] == parts[0];
      assert s[|parts[0]|] == sep;
      assert IndexOf(s, sep) == Some(|parts[0]|);
      assert s[|parts[0]| + 1..] == Join(parts[1..], sep);
      SplitJoin(parts[1..], sep);
    }
  }

  // ---------------------------------------------------------------- white space

  /** The ECMAScript WhiteSpace and LineTerminator code points that trimming and
      number parsing skip: TAB, VT, FF, ZWNBSP, every space separator (SP, NBSP,
      U+1680, U+2000 to U+200A, U+202F, U+205F, U+3000), and LF, CR, LS and PS. */
  predicate IsJsSpace(c: char)
  {
    c in JsSpaces
  }

  const JsSpaces: set<char> :=
    {'\t', '\U{B}', '\U{C}', '\U{FEFF}',
     ' ', '\U{A0}', '\U{1680}',
     '\U{2000}', '\U{2001}', '\U{2002}', '\U{2003}', '\U{2004}', '\U{2005}',
     '\U{2006}', '\U{2007}', '\U{2008}', '\U{2009}', '\U{200A}',
     '\U{202F}', '\U{205F}', '\U{3000}',
     '\n', '\r', '\U{2028}', '\U{2029}'}

  /** `s.trimStart()`: drops the leading white space and nothing else. */
  function TrimStart(s: string): (r: string)
    ensures |r| <= |s| && r == s[|s| - |r|..]
    ensures r == [] || !IsJsSpace(r[0])
  {
    if s != [] && IsJsSpace(s[0]) then TrimStart(s[1..]) else s
  }

  /** What `trimStart` drops is white space. */
  lemma {:induction false} TrimStartDropsSpace(s: string)
    ensures forall k :: 0 <= k < |s| - |TrimStart(s)| ==> IsJsSpace(s[k])
  {
    if s != [] && IsJsSpace(s[0]) {
      TrimStartDropsSpace(s[1..]);
      forall k | 0 < k < |s| - |TrimStart(s)| ensures IsJsSpace(s[k]) {
        assert s[k] == s[1..][k - 1];
      }
    }
  }

  /** `s.trimEnd()`: drops the trailing white space and nothing else. */
  function TrimEnd(s: string): (r: string)
    ensures |r| <= |s| && r == s[..|r|]
    ensures r == [] || !IsJsSpace(r[|r| - 1])
  {
    if s != [] && IsJsSpace(s[|s| - 1]) then TrimEnd(s[..|s| - 1]) else s
  }

  /** What `trimEnd` drops is white space. */
  lemma {:induction false} TrimEndDropsSpace(s: string)
    ensures forall k :: |TrimEnd(s)| <= k < |s| ==> IsJsSpace(s[k])
  {
    if s != [] && IsJsSpace(s[|s| - 1]) {
      TrimEndDropsSpace(s[..|s| - 1]);
      forall k | |TrimEnd(s)| <= k < |s| - 1 ensures IsJsSpace(s[k]) {
        assert s[k] == s[..|s| - 1][k];
      }
    }
  }

  // ---------------------------------------------------------------- Number and parseInt

  /** `Number(s)` on the text of a form field: surrounding white space is ignored,
      blank text is 0, an optionally signed decimal digit string is its value and
      any other text is NaN. */
  function ToNumber(s: string): JsNum
  {
    var t := TrimEnd(TrimStart(s));
    if t == [] then Num(0)
    else if (t[0] == '+' || t[0] == '-') && |t| > 1 && AllDigits(t[1..]) then
      Num(if t[0] == '-' then -(DigitsValue(t[1..]) as int) else DigitsValue(t[1..]))
    else if AllDigits(t) then Num(DigitsValue(t))
    else NaN
  }

  /** The longest prefix of s made of decimal digits. */
  function LeadingDigits(s: string): (d: string)
    ensures |d| <= |s| && d == s[..|d|] && AllDigits(d)
    ensures |d| == |s| || !IsDigit(s[|d|])
  {
    if s != [] && IsDigit(s[0]) then [s[0]] + LeadingDigits(s[1..]) else []
  }

  /** The value of the digits at the start of s; NaN when s does not start with one. */
  function DecimalPrefix(s: string): JsNum
  {
    var d := LeadingDigits(s);
    if d == [] then NaN else Num(DigitsValue(d))
  }

  /** Unary minus. */
  function Negate(n: JsNum): JsNum
  {
    match n
    case NaN => NaN
    case Num(v) => Num(-v)
  }

  /** `parseInt(s)` in base ten: leading white space, an optional sign, then the
      longest run of digits; NaN when there is no digit. */
  function ParseInt(s: string): JsNum
  {
    var t := TrimStart(s);
    if t != [] && t[0] == '-' then Negate(DecimalPrefix(t[1..]))
    else if t != [] && t[0] == '+' then DecimalPrefix(t[1..])
    else DecimalPrefix(t)
  }

  /** Digit strings read back as their value through `Number`. */
  lemma ToNumberOfDigits(s: string)
    requires AllDigits(s)
    ensures ToNumber(s) == Num(DigitsValue(s))
  {
    if s != [] {
      assert IsDigit(s[0]) && !IsJsSpace(s[0]);
      assert IsDigit(s[|s| - 1]) && !IsJsSpace(s[|s| - 1]);
    }
    assert TrimStart(s) == s;
    assert TrimEnd(s) == s;
    if s != [] {
      assert s[0] != '+' && s[0] != '-';
    }
  }

  /** `parseInt` stops at the first non-digit. */
  lemma {:induction false} LeadingDigitsOf(d: string, rest: string)
    requires AllDigits(d)
    requires rest == [] || !IsDigit(rest[0])
    ensures LeadingDigits(d + rest) == d
  {
    if d != [] {
      assert (d + rest)[1..] == d[1..] + rest;
      LeadingDigitsOf(d[1..], rest);
    }
  }

  /** The digits at the start of d + rest are d when rest does not continue them. */
  lemma DecimalPrefixOf(d: string, rest: string)
    requires d != [] && AllDigits(d)
    requires rest == [] || !IsDigit(rest[0])
    ensures DecimalPrefix(d + rest) == Num(DigitsValue(d))
  {
    LeadingDigitsOf(d, rest);
  }

  /** `parseInt` on text that starts with neither white space nor a sign. */
  lemma ParseIntUnsigned(s: string)
    requires s != [] && !IsJsSpace(s[0]) && s[0] != '-' && s[0] != '+'
    ensures ParseInt(s) == DecimalPrefix(s)
  {
    assert TrimStart(s) == s;
  }

  /** `parseInt` on text that starts with a minus sign. */
  lemma ParseIntNegative(s: string)
    requires s != [] && s[0] == '-'
    ensures ParseInt(s) == Negate(DecimalPrefix(s[1..]))
  {
    assert !IsJsSpace(s[0]);
    assert TrimStart(s) == s;
  }

  /** `parseInt(String(x))` is x. */
  lemma ParseIntOfInt(x: int)
    ensures ParseInt(IntToString(x)) == Num(x)
  {
    ParseIntOfIntText(x, "");
    assert IntToString(x) + "" == IntToString(x);
  }

  /** `parseInt(String(x) + rest)` is x whenever rest does not continue the digits,
      so parseInt(String(x)) is x and parseInt("10:00") is 10. */
  lemma ParseIntOfIntText(x: int, rest: string)
    requires rest == [] || !IsDigit(rest[0])
    ensures ParseInt(IntToString(x) + rest) == Num(x)
  {
    if x < 0 {
      ParseIntOfNegativeText(x, rest);
    } else {
      ParseIntOfNatText(x, rest);
    }
  }

  lemma ParseIntOfNegativeText(x: int, rest: string)
    requires x < 0
    requires rest == [] || !IsDigit(rest[0])
    ensures ParseInt(IntToString(x) + rest) == Num(x)
  {
    var d := NatToString(-x);
    var s := IntToString(x) + rest;
    assert s == "-" + (d + rest);
    assert s[1..] == d + rest;
    ParseIntNegative(s);
    DecimalPrefixOf(d, rest);
  }

  lemma ParseIntOfNatText(x: int, rest: string)
    requires x >= 0
    requires rest == [] || !IsDigit(rest[0])
    ensures ParseInt(IntToString(x) + rest) == Num(x)
  {
    var d := NatToString(x);
    var s := d + rest;
    assert s[0] == d[0] && IsDigit(s[0]);
    ParseIntUnsigned(s);
    DecimalPrefixOf(d, rest);
  }

}
