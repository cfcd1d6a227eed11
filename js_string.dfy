/**
 * The ECMAScript string built-ins the task server and client rely on:
 * `String.prototype.trim`, `parseInt` with no radix argument, and the
 * decimal rendering of an integer Number inside a template literal.
 */
module JsString {
  import opened Wrappers

  /** WhiteSpace and LineTerminator code points (ECMA-262, sections 12.2 and 12.3):
      TAB, LF, VT, FF, CR, SPACE, NBSP, every other Zs space, LS, PS and ZWNBSP. */
  predicate IsWhitespace(c: char) {
    || c == '\t' || c == '\n' || c == '\U{000B}' || c == '\U{000C}' || c == '\r'
    || c == ' ' || c == '\U{00A0}' || c == '\U{1680}'
    || ('\U{2000}' <= c <= '\U{200A}')
    || c == '\U{2028}' || c == '\U{2029}' || c == '\U{202F}' || c == '\U{205F}'
    || c == '\U{3000}' || c == '\U{FEFF}'
  }

  /** The length of the run of whitespace that `s` starts with. */
  function LeadingSpace(s: string): (n: nat)
    ensures n <= |s|
    ensures n < |s| ==> !IsWhitespace(s[n])
  {
    if s != [] && IsWhitespace(s[0]) then 1 + LeadingSpace(s[1..]) else 0
  }

  /** The length of the run of whitespace that `s` ends with. */
  function TrailingSpace(s: string): (n: nat)
    ensures n <= |s|
    ensures n < |s| ==> !IsWhitespace(s[|s| - 1 - n])
  {
    if s != [] && IsWhitespace(s[|s| - 1]) then 1 + TrailingSpace(s[..|s| - 1]) else 0
  }

  /** The leading run is whitespace throughout. */
  lemma {:induction false} LeadingSpaceIsWhitespace(s: string)
    ensures forall i | 0 <= i < LeadingSpace(s) :: IsWhitespace(s[i])
  {
    if s != [] && IsWhitespace(s[0]) {
      LeadingSpaceIsWhitespace(s[1..]);
      assert forall i | 1 <= i < |s| :: s[i] == s[1..][i - 1];
    }
  }

  /** The trailing run is whitespace throughout. */
  lemma {:induction false} TrailingSpaceIsWhitespace(s: string)
    ensures forall i | |s| - TrailingSpace(s) <= i < |s| :: IsWhitespace(s[i])
  {
    if s != [] && IsWhitespace(s[|s| - 1]) {
      TrailingSpaceIsWhitespace(s[..|s| - 1]);
      assert forall i | 0 <= i < |s| - 1 :: s[i] == s[..|s| - 1][i];
    }
  }

  /** Drops the leading whitespace; what is left does not start with whitespace. */
  function TrimStart(s: string): (r: string)
    ensures r == [] || !IsWhitespace(r[0])
  {
    s[LeadingSpace(s)..]
  }

  /** Drops the trailing whitespace; what is left does not end with whitespace. */
  function TrimEnd(s: string): (r: string)
    ensures r == [] || !IsWhitespace(r[|r| - 1])
  {
    s[..|s| - TrailingSpace(s)]
  }

  /** `s.trim()`: whitespace removed from both ends. */
  function Trim(s: string): (r: string)
    ensures |r| <= |s|
  {
    TrimEnd(TrimStart(s))
  }

  /** The trimmed string is the slice of `s` that starts after the leading
      whitespace and stops before the trailing whitespace, and it neither starts
      nor ends with whitespace. */
  lemma TrimIsSlice(s: string)
    ensures var r, lo := Trim(s), |s| - |TrimStart(s)|;
      && lo + |r| <= |s| && s[lo..lo + |r|] == r
      && (forall i | 0 <= i < lo :: IsWhitespace(s[i]))
      && (forall i | lo + |r| <= i < |s| :: IsWhitespace(s[i]))
      && (r == [] || (!IsWhitespace(r[0]) && !IsWhitespace(r[|r| - 1])))
  {
    var n := LeadingSpace(s);
    var t := TrimStart(s);
    var r := TrimEnd(t);
    assert Trim(s) == r;
    assert |s| - |t| == n;
    LeadingSpaceIsWhitespace(s);
    TrailingSpaceIsWhitespace(t);
    TrimSlice(s);
    forall i | n + |r| <= i < |s|
      ensures IsWhitespace(s[i])
    {
      assert s[i] == t[i - n];
    }
    if r != [] {
      assert r[0] == t[0];
    }
  }

  /** Where the trimmed string sits in `s`. */
  lemma TrimSlice(s: string)
    ensures var r, lo := Trim(s), LeadingSpace(s); lo + |r| <= |s| && s[lo..lo + |r|] == r
  {
    var n := LeadingSpace(s);
    var t := s[n..];
    var r := t[..|t| - TrailingSpace(t)];
    assert Trim(s) == r;
    assert s[n..n + |r|] == r;
  }

  /** The trimmed string is empty exactly when `s` is whitespace only. */
  lemma TrimEmptyIff(s: string)
    ensures Trim(s) == [] <==> forall i | 0 <= i < |s| :: IsWhitespace(s[i])
  {
    var n := LeadingSpace(s);
    var t := TrimStart(s);
    LeadingSpaceIsWhitespace(s);
    TrailingSpaceIsWhitespace(t);
    if n < |s| {
      assert t[0] == s[n];
    }
  }

  /** Neither starting nor ending with whitespace. */
  predicate IsTrimmed(s: string) {
    s == [] || (!IsWhitespace(s[0]) && !IsWhitespace(s[|s| - 1]))
  }

  /** What trim returns is trimmed. */
  lemma TrimIsTrimmed(s: string)
    ensures IsTrimmed(Trim(s))
  {
    var t := TrimStart(s);
    var r := TrimEnd(t);
    assert Trim(s) == r;
    if r != [] {
      assert r[0] == t[0];
    }
  }

  /** Trim leaves a string alone exactly when it is already trimmed. */
  lemma TrimFixedIff(s: string)
    ensures Trim(s) == s <==> IsTrimmed(s)
  {
    TrimIsTrimmed(s);
    if IsTrimmed(s) && s != [] {
      assert LeadingSpace(s) == 0 && TrailingSpace(s) == 0;
      assert TrimStart(s) == s;
      assert TrimEnd(s) == s;
    }
  }

  /** Trimming twice is trimming once. */
  lemma TrimIdempotent(s: string)
    ensures Trim(Trim(s)) == Trim(s)
  {
    TrimIsTrimmed(s);
    TrimFixedIff(Trim(s));
  }

  // ---------------------------------------------------------------------------
  // parseInt

  /** A digit of radix 10 or 16, as parseInt accepts it (letters in either case). */
  predicate IsDigit(c: char, radix: nat) {
    if radix == 16 then '0' <= c <= '9' || 'a' <= c <= 'f' || 'A' <= c <= 'F'
    else '0' <= c <= '9'
  }

  function DigitValue(c: char): nat {
    if '0' <= c <= '9' then c as int - '0' as int
    else if 'a' <= c <= 'f' then c as int - 'a' as int + 10
    else if 'A' <= c <= 'F' then c as int - 'A' as int + 10
    else 0
  }

  /** The length of the longest prefix of `s` made of digits of the radix. */
  function DigitCount(s: string, radix: nat): (n: nat)
    ensures n <= |s|
    ensures n < |s| ==> !IsDigit(s[n], radix)
  {
    if s != [] && IsDigit(s[0], radix) then 1 + DigitCount(s[1..], radix) else 0
  }

  /** That prefix is made of digits throughout. */
  lemma {:induction false} DigitCountIsDigits(s: string, radix: nat)
    ensures forall i | 0 <= i < DigitCount(s, radix) :: IsDigit(s[i], radix)
  {
    if s != [] && IsDigit(s[0], radix) {
      DigitCountIsDigits(s[1..], radix);
      assert forall i | 1 <= i < |s| :: s[i] == s[1..][i - 1];
    }
  }

  /** The number a digit string denotes in the radix, most significant digit first. */
  function DigitsValue(z: string, radix: nat): nat {
    if z == [] then 0 else DigitsValue(z[..|z| - 1], radix) * radix + DigitValue(z[|z| - 1])
  }

  /** `parseInt(s)` (ECMA-262, section 19.2.5) with the radix argument left out:
      skip leading whitespace, take an optional sign, switch to radix 16 after a
      `0x`/`0X` prefix, and read the longest run of digits that follows. No digit
      at all gives NaN, here `None`; `-0` is folded into 0, to which it is `===`. */
  function ParseInt(s: string): Option<int> {
    ParseSigned(TrimStart(s))
  }

  /** The optional sign in front of the digits. */
  function ParseSigned(t: string): Option<int> {
    if t != [] && t[0] == '-' then
      match ParseMagnitude(t[1..])
      case None => None
      case Some(m) => Some(-m)
    else if t != [] && t[0] == '+' then ParseMagnitude(t[1..])
    else ParseMagnitude(t)
  }

  /** The digits after the sign: radix 16 after a `0x` or `0X` prefix (which is
      dropped), radix 10 otherwise. */
  function ParseMagnitude(u: string): Option<int> {
    if |u| >= 2 && u[0] == '0' && (u[1] == 'x' || u[1] == 'X') then ParseDigits(u[2..], 16)
    else ParseDigits(u, 10)
  }

  /** The value of the longest run of digits at the start of `v`, if there is one. */
  function ParseDigits(v: string, radix: nat): Option<int> {
    var n := DigitCount(v, radix);
    if n == 0 then None else Some(DigitsValue(v[..n], radix))
  }

  // ---------------------------------------------------------------------------
  // Integer to decimal string, as `${n}` renders an integer Number

  function DigitChar(d: nat): (c: char)
    requires d < 10
    ensures IsDigit(c, 10) && DigitValue(c) == d
  {
    (d + '0' as int) as char
  }

  /** The decimal digits of `n`, without leading zeros. */
  function NatToString(n: nat): (r: string)
    ensures r != [] && forall i | 0 <= i < |r| :: IsDigit(r[i], 10)
    ensures r[0] == '0' ==> n == 0 && r == "0"
  {
    if n < 10 then [DigitChar(n)] else NatToString(n / 10) + [DigitChar(n % 10)]
  }

  function IntToString(i: int): string {
    if i < 0 then "-" + NatToString(-i) else NatToString(i)
  }

  lemma {:induction false} NatToStringValue(n: nat)
    ensures DigitsValue(NatToString(n), 10) == n
  {
    var r := NatToString(n);
    if n >= 10 {
      assert r[..|r| - 1] == NatToString(n / 10);
      NatToStringValue(n / 10);
    }
  }

  /** In a string made of digits only, the digits run to the end. */
  lemma {:induction false} AllDigitsCount(s: string, radix: nat)
    requires forall i | 0 <= i < |s| :: IsDigit(s[i], radix)
    ensures DigitCount(s, radix) == |s|
  {
    if s != [] {
      assert forall i | 0 <= i < |s| - 1 :: s[1..][i] == s[i + 1];
      AllDigitsCount(s[1..], radix);
    }
  }

  /** Parsing the decimal rendering of an integer gives it back: the id a client
      puts in a URL is the id the server looks up. */
  lemma ParseIntRoundTrip(i: int)
    ensures ParseInt(IntToString(i)) == Some(i)
  {
    var s := IntToString(i);
    var n: nat := if i < 0 then -i else i;
    NatToStringParses(n);
    assert TrimStart(s) == s;
    if i < 0 {
      assert s[1..] == NatToString(n);
    }
  }

  /** The digits of `n` read back as `n`, with or without a sign before them:
      they never start with a `0x` prefix. */
  lemma NatToStringParses(n: nat)
    ensures ParseMagnitude(NatToString(n)) == Some(n)
    ensures ParseSigned(NatToString(n)) == Some(n)
  {
    var d := NatToString(n);
    assert !(|d| >= 2 && d[0] == '0');
    AllDigitsCount(d, 10);
    assert d[..|d|] == d;
    NatToStringValue(n);
  }

  /** Worked cases of parseInt: trailing garbage stops the digits, `0x` switches
      to hexadecimal. */
  lemma ParseIntStopsAtGarbage()
    ensures ParseInt("12abc") == Some(12)
  {
    var s := "12abc";
    assert LeadingSpace(s) == 0;
    assert TrimStart(s) == s;
    assert s[1..] == "2abc" && s[1..][1..] == "abc";
    assert DigitCount("abc", 10) == 0;
    assert DigitCount("2abc", 10) == 1;
    assert DigitCount(s, 10) == 2;
    assert s[..2] == "12" && "12"[..1] == "1";
    assert DigitsValue("1", 10) == 1;
    assert DigitsValue("12", 10) == 12;
    assert ParseDigits(s, 10) == Some(12);
    assert ParseMagnitude(s) == Some(12);
  }

  lemma ParseIntSignedAfterSpace()
    ensures ParseInt(" -7") == Some(-7)
  {
    var t := "-7";
    assert IsWhitespace(' ') && !IsWhitespace('-');
    assert " -7"[1..] == t;
    assert LeadingSpace(t) == 0;
    assert LeadingSpace(" -7") == 1;
    assert TrimStart(" -7") == t;
    assert t[1..] == "7" && "7"[1..] == [] && "7"[..1] == "7";
    assert DigitCount("7", 10) == 1;
    assert DigitsValue("7", 10) == 7;
    assert ParseDigits("7", 10) == Some(7);
  }

  lemma ParseIntHex()
    ensures ParseInt("0x1A") == Some(26)
  {
    var s := "0x1A";
    assert LeadingSpace(s) == 0;
    assert TrimStart(s) == s;
    assert s[2..] == "1A" && "1A"[1..] == "A" && "A"[1..] == [];
    assert DigitCount("A", 16) == 1;
    assert DigitCount("1A", 16) == 2;
    assert "1A"[..2] == "1A" && "1A"[..1] == "1";
    assert DigitsValue("1", 16) == 1;
    assert DigitsValue("1A", 16) == 26;
    assert ParseDigits("1A", 16) == Some(26);
    assert ParseMagnitude(s) == Some(26);
  }

  /** A string that, past any leading whitespace, starts with neither a
      sign nor a digit is NaN; so is one with nothing but whitespace. */
  lemma ParseIntNaN(s: string)
    requires var t := TrimStart(s); t == [] || (t[0] != '-' && t[0] != '+' && !IsDigit(t[0], 10))
    ensures ParseInt(s) == None
  {
  }
}
