/**
 The parts of Python's text handling the application leans on: decimal rendering of integers in
 f-strings, `int(text)`, `str.strip`, `str.lower` and the `in` test on strings.
 */
module Text {
  import opened Outcomes

  predicate IsDigit(c: char) { '0' <= c <= '9' }

  /** `str.isspace` of one character. */
  predicate IsSpace(c: char) {
    var n := c as int;
    || 9 <= n <= 13 || 28 <= n <= 32 || n == 0x85 || n == 0xA0 || n == 0x1680
    || 0x2000 <= n <= 0x200A || n == 0x2028 || n == 0x2029 || n == 0x202F || n == 0x205F || n == 0x3000
  }

  function DigitChar(d: nat): (c: char)
    requires d < 10
    ensures IsDigit(c) && DigitValue(c) == d
  {
    ('0' as int + d) as char
  }

  function DigitValue(c: char): nat
    requires IsDigit(c)
  {
    c as int - '0' as int
  }

  function Decimal(n: nat): string {
    if n < 10 then [DigitChar(n)] else Decimal(n / 10) + [DigitChar(n % 10)]
  }

  /** `f"{n}"` for an integer. */
  function IntText(n: int): string {
    if n < 0 then "-" + Decimal(-n) else Decimal(n)
  }

  function StripLeft(s: string): string {
    if s != "" && IsSpace(s[0]) then StripLeft(s[1..]) else s
  }

  function StripRight(s: string): string {
    if s != "" && IsSpace(s[|s| - 1]) then StripRight(s[..|s| - 1]) else s
  }

  /** `s.strip()`. */
  function Strip(s: string): string { StripRight(StripLeft(s)) }

  /** Digits with single underscores between them, as Python's integer literals allow. */
  function ParseDigits(s: string, value: int, afterDigit: bool): Option<int>
    decreases |s|
  {
    if s == "" then (if afterDigit then Some(value) else None)
    else if IsDigit(s[0]) then ParseDigits(s[1..], 10 * value + DigitValue(s[0]), true)
    else if s[0] == '_' && afterDigit then ParseDigits(s[1..], value, false)
    else None
  }

  /** `int(text)`; `None` stands for the ValueError. */
  function ParseInt(text: string): Option<int> {
    var s := Strip(text);
    if s != "" && s[0] == '-' then
      var n := ParseDigits(s[1..], 0, false);
      if n.Some? then Some(-n.value) else None
    else
      var n := ParseDigits(if s != "" && s[0] == '+' then s[1..] else s, 0, false);
      if n.Some? then Some(n.value) else None
  }

  function LowerChar(c: char): char {
    if 'A' <= c <= 'Z' then (c as int + 32) as char else c
  }

  function Lower(s: string): string { seq(|s|, i requires 0 <= i < |s| => LowerChar(s[i])) }

  /** `needle in hay`. */
  predicate Contains(hay: string, needle: string) {
    exists i :: 0 <= i <= |hay| && needle <= hay[i..]
  }

  /** `s[:n]`. */
  function Take(s: string, n: nat): string { if |s| <= n then s else s[..n] }

  // ----- Rendering and parsing are inverse ---------------------------------------------------

  lemma {:induction false} ParseDigitsOfDecimal(n: nat, rest: string)
    ensures ParseDigits(Decimal(n) + rest, 0, false) == ParseDigits(rest, n, true)
  {
    if n < 10 {
      assert (Decimal(n) + rest)[1..] == rest;
    } else {
      var last := [DigitChar(n % 10)] + rest;
      assert Decimal(n) + rest == Decimal(n / 10) + last;
      ParseDigitsOfDecimal(n / 10, last);
      assert last[1..] == rest;
    }
  }

  lemma {:induction false} DecimalIsDigits(n: nat)
    ensures Decimal(n) != "" && forall i :: 0 <= i < |Decimal(n)| ==> IsDigit(Decimal(n)[i])
  {
    if n >= 10 { DecimalIsDigits(n / 10); }
  }

  lemma StripKeeps(s: string)
    requires s != "" && !IsSpace(s[0]) && !IsSpace(s[|s| - 1])
    ensures Strip(s) == s
  {}

  lemma {:induction false} StripShrinks(s: string)
    ensures |Strip(s)| <= |s|
  {
    StripLeftShrinks(s);
    StripRightShrinks(StripLeft(s));
  }

  lemma {:induction false} StripLeftShrinks(s: string)
    ensures |StripLeft(s)| <= |s|
  {
    if s != "" && IsSpace(s[0]) { StripLeftShrinks(s[1..]); }
  }

  lemma {:induction false} StripRightShrinks(s: string)
    ensures |StripRight(s)| <= |s|
  {
    if s != "" && IsSpace(s[|s| - 1]) { StripRightShrinks(s[..|s| - 1]); }
  }

  lemma {:induction false} StripLeftEnds(s: string)
    ensures StripLeft(s) == "" || !IsSpace(StripLeft(s)[0])
  {
    if s != "" && IsSpace(s[0]) { StripLeftEnds(s[1..]); }
  }

  lemma {:induction false} StripRightEnds(s: string)
    ensures StripRight(s) <= s
    ensures StripRight(s) == "" || !IsSpace(StripRight(s)[|StripRight(s)| - 1])
  {
    if s != "" && IsSpace(s[|s| - 1]) { StripRightEnds(s[..|s| - 1]); }
  }

  /** A stripped text neither starts nor ends with white space. */
  lemma StripEnds(s: string)
    ensures Strip(s) == "" || (!IsSpace(Strip(s)[0]) && !IsSpace(Strip(s)[|Strip(s)| - 1]))
  {
    StripLeftEnds(s);
    StripRightEnds(StripLeft(s));
  }

  /** `int(str(n)) == n` for every integer: an id sent as text names the same column. */
  lemma ParseOfIntText(n: int)
    ensures ParseInt(IntText(n)) == Some(n)
  {
    var magnitude: nat := if n < 0 then -n else n;
    DecimalIsDigits(magnitude);
    StripKeeps(IntText(n));
    ParseDigitsOfDecimal(magnitude, "");
    assert Decimal(magnitude) + "" == Decimal(magnitude);
    if n < 0 { assert IntText(n)[1..] == Decimal(magnitude); }
  }

  /** Distinct integers render differently. */
  lemma IntTextInjective(m: int, n: int)
    requires IntText(m) == IntText(n)
    ensures m == n
  {
    ParseOfIntText(m);
    ParseOfIntText(n);
  }
}
