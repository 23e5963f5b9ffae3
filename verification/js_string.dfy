/** The few JavaScript string built-ins the quiz code relies on: `trim`,
    `trimStart`, `Number.parseInt(s, 10)`, `String(n)` for integers and
    `String.fromCharCode`. Strings are sequences of Unicode scalar values. */
module JsString {
  import opened Wrappers

  /** The characters JavaScript treats as white space in `trim`, `trimStart`,
      `parseInt` and the regular-expression class `\s`: the WhiteSpace and
      LineTerminator productions of ECMAScript (section 12.2 and 12.3 of
      ECMA-262). */
  predicate IsSpace(c: char) {
    || c == '\t' || c == '\n' || c == '\U{000B}' || c == '\U{000C}' || c == '\r'
    || c == ' ' || c == '\U{00A0}' || c == '\U{1680}'
    || ('\U{2000}' <= c <= '\U{200A}')
    || c == '\U{2028}' || c == '\U{2029}' || c == '\U{202F}' || c == '\U{205F}'
    || c == '\U{3000}' || c == '\U{FEFF}'
  }

  predicate IsDigit(c: char) {
    '0' <= c <= '9'
  }

  /** True when every character of `s` is white space (the empty string included). */
  ghost predicate IsBlank(s: string) {
    forall k :: 0 <= k < |s| ==> IsSpace(s[k])
  }

  /** `s.trimStart()`: drops the maximal run of leading white space. */
  function TrimStart(s: string): (r: string)
    ensures |r| <= |s| && r == s[|s| - |r|..]
    ensures forall k :: 0 <= k < |s| - |r| ==> IsSpace(s[k])
    ensures r == [] || !IsSpace(r[0])
  {
    if |s| > 0 && IsSpace(s[0]) then TrimStart(s[1..]) else s
  }

  /** `s.trimEnd()`: drops the maximal run of trailing white space. */
  function TrimEnd(s: string): (r: string)
    ensures |r| <= |s| && r == s[..|r|]
    ensures forall k :: |r| <= k < |s| ==> IsSpace(s[k])
    ensures r == [] || !IsSpace(r[|r| - 1])
  {
    if |s| > 0 && IsSpace(s[|s| - 1]) then TrimEnd(s[..|s| - 1]) else s
  }

  /** `s.trim()`: the middle of `s` once the white space at both ends is
      gone. */
  function Trim(s: string): (r: string)
    ensures |r| <= |s|
    ensures BetweenBlankRuns(s, r)
    ensures r == [] || (!IsSpace(r[0]) && !IsSpace(r[|r| - 1]))
  {
    var t := TrimStart(s);
    var r := TrimEnd(t);
    BetweenBlanks(s, t, r);
    r
  }

  /** `r` is a slice of `s` with nothing but white space before and after it. */
  ghost predicate BetweenBlankRuns(s: string, r: string) {
    exists lo :: && 0 <= lo && lo + |r| <= |s|
                 && r == s[lo..lo + |r|]
                 && IsBlank(s[..lo]) && IsBlank(s[lo + |r|..])
  }

  /** A prefix `r` of a suffix `t` of `s` with only white space cut off
      either side lies between two blank runs of `s`. */
  lemma BetweenBlanks(s: string, t: string, r: string)
    requires |t| <= |s| && t == s[|s| - |t|..]
    requires forall k :: 0 <= k < |s| - |t| ==> IsSpace(s[k])
    requires |r| <= |t| && r == t[..|r|]
    requires forall k :: |r| <= k < |t| ==> IsSpace(t[k])
    ensures BetweenBlankRuns(s, r)
  {
    var lo := |s| - |t|;
    var head := s[..lo];
    var tail := s[lo + |r|..];
    forall k | 0 <= k < |head|
      ensures IsSpace(head[k])
    {
      assert head[k] == s[k];
    }
    forall k | 0 <= k < |tail|
      ensures IsSpace(tail[k])
    {
      assert tail[k] == t[|r| + k];
    }
    assert r == s[lo..lo + |r|];
  }

  /** A trimmed string is empty exactly when the original is blank: this is
      what `if (userName.trim())` tests. */
  lemma TrimEmptyIffBlank(s: string)
    ensures Trim(s) == [] <==> IsBlank(s)
  {
    var t := TrimStart(s);
    if Trim(s) == [] {
      assert t == [];
    } else {
      assert t != [];
      assert !IsSpace(t[0]) && t[0] == s[|s| - |t|];
    }
  }

  /** `trimStart` removes exactly a blank prefix in front of text that does
      not start with white space. */
  lemma {:induction false} TrimStartBlankThenRest(lead: string, rest: string)
    requires IsBlank(lead)
    requires rest == [] || !IsSpace(rest[0])
    ensures TrimStart(lead + rest) == rest
  {
    if lead == [] {
      assert lead + rest == rest;
      TrimStartNoLeadingSpace(rest);
    } else {
      assert (lead + rest)[1..] == lead[1..] + rest;
      TrimStartBlankThenRest(lead[1..], rest);
    }
  }

  /** `trimStart` of text that starts with white space removes something. */
  lemma TrimStartShortens(u: string)
    requires |u| > 0 && IsSpace(u[0])
    ensures |TrimStart(u)| < |u|
  {
  }

  /** Length of the maximal run of decimal digits at the start of `s`. */
  function DigitPrefixLength(s: string): (n: nat)
    ensures n <= |s|
    ensures forall k :: 0 <= k < n ==> IsDigit(s[k])
    ensures n == |s| || !IsDigit(s[n])
  {
    if |s| > 0 && IsDigit(s[0]) then 1 + DigitPrefixLength(s[1..]) else 0
  }

  /** The value of a non-empty run of decimal digits, most significant first. */
  function DigitsValue(ds: string): nat
    requires forall k :: 0 <= k < |ds| ==> IsDigit(ds[k])
  {
    if |ds| == 0 then 0
    else
      var d := ds[|ds| - 1];
      assert IsDigit(d);
      10 * DigitsValue(ds[..|ds| - 1]) + (d as int - '0' as int)
  }

  /** `Number.parseInt(s, 10)` (section 19.2.5 of ECMA-262): skip leading white
      space, read an optional sign, then the longest run of decimal digits;
      `None` stands for `NaN`, returned when there is no digit at all. Trailing
      characters are ignored, so "2abc" reads as 2. */
  function ParseInt(s: string): Option<int> {
    ParseSigned(TrimStart(s))
  }

  /** `parseInt` yields `NaN` unless the string holds a digit. */
  lemma ParseIntNeedsDigit(s: string)
    ensures ParseInt(s).Some? ==> exists k :: 0 <= k < |s| && IsDigit(s[k])
  {
    var t := TrimStart(s);
    if ParseInt(s).Some? {
      var off := if |t| > 0 && (t[0] == '-' || t[0] == '+') then 1 else 0;
      assert ParseDigits(t[off..]).Some?;
      assert IsDigit(t[off..][0]);
      assert s[|s| - |t| + off] == t[off];
    }
  }

  /** `parseInt` skips the white space in front of the number. */
  lemma ParseIntSkipsSpace(lead: string, rest: string)
    requires IsBlank(lead)
    requires rest == [] || !IsSpace(rest[0])
    ensures ParseInt(lead + rest) == ParseInt(rest)
  {
    TrimStartBlankThenRest(lead, rest);
    TrimStartNoLeadingSpace(rest);
  }

  /** `parseInt` after the white space: an optional sign, then digits. */
  function ParseSigned(t: string): Option<int> {
    if |t| > 0 && t[0] == '-' then Negate(ParseDigits(t[1..]))
    else if |t| > 0 && t[0] == '+' then ParseDigits(t[1..])
    else ParseDigits(t)
  }

  function Negate(v: Option<int>): (r: Option<int>)
    ensures r.Some? <==> v.Some?
    ensures v.Some? ==> r.value == -v.value
  {
    match v
    case None => None
    case Some(x) => Some(-x)
  }

  /** The value of the leading run of digits, `None` when there is none. */
  function ParseDigits(u: string): Option<int> {
    var n := DigitPrefixLength(u);
    if n == 0 then None else Some(DigitsValue(u[..n]))
  }

  /** The decimal spelling of a natural number without leading zeros, which
      is what `String(n)` prints for it below 10^21 (from there on it uses
      exponent notation). */
  function Decimal(n: nat): (ds: string)
    ensures |ds| > 0
    ensures forall k :: 0 <= k < |ds| ==> IsDigit(ds[k])
  {
    var d := ['0' + ((n % 10) as char)];
    if n < 10 then d else Decimal(n / 10) + d
  }

  lemma {:induction false} DecimalValue(n: nat)
    ensures DigitsValue(Decimal(n)) == n
  {
    var ds := Decimal(n);
    if n >= 10 {
      DecimalValue(n / 10);
      assert ds[..|ds| - 1] == Decimal(n / 10);
    }
  }

  lemma {:induction false} DigitPrefixOfDigitsThenRest(a: string, rest: string)
    requires forall k :: 0 <= k < |a| ==> IsDigit(a[k])
    requires rest == [] || !IsDigit(rest[0])
    ensures DigitPrefixLength(a + rest) == |a|
  {
    if |a| > 0 {
      assert (a + rest)[1..] == a[1..] + rest;
      DigitPrefixOfDigitsThenRest(a[1..], rest);
    }
  }

  lemma TrimStartNoLeadingSpace(s: string)
    requires s == [] || !IsSpace(s[0])
    ensures TrimStart(s) == s
  {
  }

  /** A run of digits followed by a non-digit reads as the run's value. */
  lemma {:induction false} ParseDigitsThenRest(ds: string, rest: string)
    requires |ds| > 0 && forall k :: 0 <= k < |ds| ==> IsDigit(ds[k])
    requires rest == [] || !IsDigit(rest[0])
    ensures ParseDigits(ds + rest) == Some(DigitsValue(ds))
  {
    DigitPrefixOfDigitsThenRest(ds, rest);
    assert (ds + rest)[..|ds|] == ds;
  }

  /** `parseInt` of a string that starts with a digit reads its digit run. */
  lemma {:induction false} ParseIntOfDigitRun(ds: string, rest: string)
    requires |ds| > 0 && forall k :: 0 <= k < |ds| ==> IsDigit(ds[k])
    requires rest == [] || !IsDigit(rest[0])
    ensures ParseInt(ds + rest) == Some(DigitsValue(ds))
  {
    var u := ds + rest;
    assert u[0] == ds[0];
    assert IsDigit(u[0]);
    TrimStartNoLeadingSpace(u);
    assert ParseSigned(u) == ParseDigits(u);
    ParseDigitsThenRest(ds, rest);
  }

  /** `parseInt` of a minus sign and `u` negates what `u` reads as. */
  lemma MinusSignRead(u: string, t: string)
    requires t == ['-'] + u
    ensures ParseInt(t) == Negate(ParseDigits(u))
  {
    assert t[0] == '-' && t[1..] == u;
    TrimStartNoLeadingSpace(t);
  }

  /** ... so a minus sign in front of digits worth `v` reads as `-v`. */
  lemma NegatedRead(u: string, t: string, v: int)
    requires ParseDigits(u) == Some(v)
    requires t == ['-'] + u
    ensures ParseInt(t) == Some(-v)
  {
    MinusSignRead(u, t);
  }

  /** The digits `String(m)` prints, then a non-digit, read as `m`. */
  lemma DecimalDigitsThenRest(m: nat, rest: string)
    requires rest == [] || !IsDigit(rest[0])
    ensures ParseDigits(Decimal(m) + rest) == Some(m)
  {
    DecimalValue(m);
    ParseDigitsThenRest(Decimal(m), rest);
  }

  /** Parsing what `String(m)` prints gives `m` back, whatever non-digit
      text follows. */
  lemma {:induction false} ParseIntRoundTrip(m: nat, rest: string)
    requires rest == [] || !IsDigit(rest[0])
    ensures ParseInt(Decimal(m) + rest) == Some(m)
  {
    DecimalValue(m);
    ParseIntOfDigitRun(Decimal(m), rest);
  }

  /** The same for `String(-m)`. */
  lemma ParseIntRoundTripNegative(m: nat, rest: string)
    requires rest == [] || !IsDigit(rest[0])
    ensures ParseInt(['-'] + (Decimal(m) + rest)) == Some(-(m as int))
  {
    DecimalDigitsThenRest(m, rest);
    NegatedRead(Decimal(m) + rest, ['-'] + (Decimal(m) + rest), m);
  }

  /** `ToUint16(code)`, the conversion `String.fromCharCode` applies. */
  function ToUint16(code: int): (u: int)
    ensures 0 <= u < 0x1_0000
    ensures 0 <= code < 0x1_0000 ==> u == code
  {
    code % 0x1_0000
  }

  /** The code units `String.fromCharCode` can produce that are scalar values
      (everything but the UTF-16 surrogate range). */
  predicate IsScalarCode(code: int) {
    var u := ToUint16(code);
    u < 0xD800 || 0xE000 <= u
  }

  /** `String.fromCharCode(code)` as a single character. */
  function FromCharCode(code: int): char
    requires IsScalarCode(code)
  {
    ToUint16(code) as char
  }

  /** Regular-expression matching of the letter `upper` under the `i` flag:
      the ASCII letter itself or its lower-case twin. */
  predicate SameLetterIgnoringCase(c: char, upper: char)
    requires 'A' <= upper <= 'Z'
  {
    c == upper || c == upper + ('a' - 'A')
  }
}
