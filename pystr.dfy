/**
 * The Python string operations the page relies on: `str.isspace` (the set of
 * characters an argument-less `strip()` removes), `str.lower`, `str.upper`,
 * `str.strip`, `str.replace` with a one-character pattern, and `str` of an
 * integer. Case mapping is given for ASCII and the Latin-1 Supplement.
 */
module PyStr {

  /** The characters Python treats as whitespace. */
  predicate IsSpace(c: char) {
    ('\t' <= c <= '\r') || ('\U{1C}' <= c <= '\U{1F}') || c == ' '
    || c == '\U{85}' || c == '\U{A0}' || c == '\U{1680}'
    || ('\U{2000}' <= c <= '\U{200A}') || c == '\U{2028}' || c == '\U{2029}'
    || c == '\U{202F}' || c == '\U{205F}' || c == '\U{3000}'
  }

  /** Upper-case letters that `lower()` changes: A-Z and À-Þ except ×. */
  predicate IsUpper(c: char) {
    ('A' <= c <= 'Z') || ('\U{C0}' <= c <= '\U{DE}' && c != '\U{D7}')
  }

  /** Lower-case letters whose upper case is one character 32 code points below. */
  predicate IsShiftedLower(c: char) {
    ('a' <= c <= 'z') || ('\U{E0}' <= c <= '\U{FE}' && c != '\U{F7}')
  }

  function LowerChar(c: char): (r: char)
    ensures !IsUpper(r)
    ensures IsSpace(r) <==> IsSpace(c)
    ensures !IsUpper(c) ==> r == c
  {
    if IsUpper(c) then (c as int + 32) as char else c
  }

  /** `s.lower()`: every character mapped on its own. */
  function Lower(s: string): (r: string)
    ensures |r| == |s|
  {
    seq(|s|, i requires 0 <= i < |s| => LowerChar(s[i]))
  }

  /** `lower()` works piece by piece: lowering a concatenation concatenates the lowered parts. */
  lemma LowerConcat(a: string, b: string)
    ensures Lower(a + b) == Lower(a) + Lower(b)
  {
  }

  /** The upper case of one character; `ß` becomes the two letters "SS". */
  function UpperChar(c: char): (r: string)
    ensures 1 <= |r| <= 2
  {
    if IsShiftedLower(c) then [(c as int - 32) as char]
    else if c == '\U{FF}' then ['\U{178}']
    else if c == '\U{B5}' then ['\U{39C}']
    else if c == '\U{DF}' then "SS"
    else [c]
  }

  /** `s.upper()`: the upper cases of the characters, concatenated. */
  function Upper(s: string): (r: string)
    ensures |s| <= |r| <= 2 * |s|
  {
    if s == [] then [] else UpperChar(s[0]) + Upper(s[1..])
  }

  /** `s.lstrip()`: `s` without its leading whitespace. */
  function StripStart(s: string): (r: string)
    ensures |r| <= |s|
  {
    if s != [] && IsSpace(s[0]) then StripStart(s[1..]) else s
  }

  /** `lstrip()` drops the leading whitespace and nothing else. */
  lemma {:induction false} StripStartSuffix(s: string)
    ensures StripStart(s) == s[|s| - |StripStart(s)|..]
    ensures StripStart(s) != [] ==> !IsSpace(StripStart(s)[0])
    ensures forall i :: 0 <= i < |s| - |StripStart(s)| ==> IsSpace(s[i])
  {
    if s != [] && IsSpace(s[0]) {
      StripStartSuffix(s[1..]);
    }
  }

  /** `s.rstrip()`: `s` without its trailing whitespace. */
  function StripEnd(s: string): (r: string)
    ensures |r| <= |s|
  {
    if s != [] && IsSpace(s[|s| - 1]) then StripEnd(s[..|s| - 1]) else s
  }

  /** `rstrip()` drops the trailing whitespace and nothing else. */
  lemma {:induction false} StripEndPrefix(s: string)
    ensures StripEnd(s) == s[..|StripEnd(s)|]
    ensures StripEnd(s) != [] ==> !IsSpace(StripEnd(s)[|StripEnd(s)| - 1])
    ensures forall i :: |StripEnd(s)| <= i < |s| ==> IsSpace(s[i])
  {
    if s != [] && IsSpace(s[|s| - 1]) {
      StripEndPrefix(s[..|s| - 1]);
      assert s[..|s| - 1][..|StripEnd(s)|] == s[..|StripEnd(s)|];
    }
  }

  /** `s.strip()`: `s` without its leading and trailing whitespace. */
  function Strip(s: string): (r: string)
    ensures |r| <= |s|
  {
    StripEnd(StripStart(s))
  }

  /**
   * What `strip()` keeps is one slice of `s` that neither starts nor ends with
   * whitespace, and all it cuts is whitespace.
   */
  lemma StripSlice(s: string) returns (a: nat, b: nat)
    ensures a <= b <= |s| && Strip(s) == s[a..b]
    ensures Strip(s) != [] ==> !IsSpace(Strip(s)[0]) && !IsSpace(Strip(s)[|Strip(s)| - 1])
    ensures forall i :: 0 <= i < a ==> IsSpace(s[i])
    ensures forall i :: b <= i < |s| ==> IsSpace(s[i])
  {
    var t := StripStart(s);
    StripStartSuffix(s);
    StripEndPrefix(t);
    a := |s| - |t|;
    b := a + |StripEnd(t)|;
    assert Strip(s) == t[..b - a];
    forall i | b <= i < |s| ensures IsSpace(s[i]) {
      assert s[i] == t[i - a];
    }
  }

  /** A string that neither starts nor ends with whitespace is its own `strip()`. */
  lemma StripTrimmed(s: string)
    requires s != [] ==> !IsSpace(s[0]) && !IsSpace(s[|s| - 1])
    ensures Strip(s) == s
  {
    if s != [] {
      assert StripStart(s) == s;
      assert StripEnd(s) == s;
    }
  }

  /** One whitespace character on each side of a trimmed text is exactly what `strip()` removes. */
  lemma StripPadded(core: string, before: char, after: char)
    requires core != [] ==> !IsSpace(core[0]) && !IsSpace(core[|core| - 1])
    requires IsSpace(before) && IsSpace(after)
    ensures Strip([before] + core + [after]) == core
  {
    var s := [before] + core + [after];
    if core != [] {
      assert s[1..] == core + [after];
      assert StripStart(s) == core + [after];
      assert (core + [after])[..|core|] == core;
      assert StripEnd(core + [after]) == StripEnd(core);
    } else {
      assert s == [before, after];
      assert StripStart([before, after]) == [];
    }
  }

  /** `s.replace(a, b)` for a one-character pattern `a`. */
  function ReplaceChar(s: string, a: char, b: char): (r: string)
    ensures |r| == |s|
  {
    seq(|s|, i requires 0 <= i < |s| => if s[i] == a then b else s[i])
  }

  /** `replace` works piece by piece on a concatenation. */
  lemma ReplaceCharConcat(s: string, t: string, a: char, b: char)
    ensures ReplaceChar(s + t, a, b) == ReplaceChar(s, a, b) + ReplaceChar(t, a, b)
  {
  }

  function DigitChar(d: nat): (c: char)
    requires d < 10
    ensures '0' <= c <= '9'
  {
    ('0' as int + d) as char
  }

  /** The decimal digits of `n`, most significant first, without leading zeros. */
  function Digits(n: nat): (r: string)
    ensures r != []
  {
    if n < 10 then [DigitChar(n)] else Digits(n / 10) + [DigitChar(n % 10)]
  }

  /** `Digits` spells `n` with decimal digits only, with a leading zero exactly for 0. */
  lemma {:induction false} DigitsShape(n: nat)
    ensures forall i :: 0 <= i < |Digits(n)| ==> '0' <= Digits(n)[i] <= '9'
    ensures (Digits(n)[0] == '0') <==> (n == 0)
  {
    if n >= 10 {
      DigitsShape(n / 10);
    }
  }

  /** `str(n)` for an integer: an optional minus sign, then the digits. */
  function DecimalString(n: int): (r: string)
    ensures r != []
  {
    if n < 0 then "-" + Digits(-n) else Digits(n)
  }

  /** `str(n)` is made of digits and a leading minus sign, present exactly when n < 0. */
  lemma DecimalStringShape(n: int)
    ensures forall i :: 0 <= i < |DecimalString(n)| ==> DecimalString(n)[i] == '-' || '0' <= DecimalString(n)[i] <= '9'
    ensures (DecimalString(n)[0] == '-') <==> (n < 0)
  {
    if n < 0 {
      DigitsShape(-n);
    } else {
      DigitsShape(n);
    }
  }

  /** The number a string of decimal digits denotes, most significant digit first. */
  function ValueOf(s: string): int {
    if s == [] then 0 else ValueOf(s[..|s| - 1]) * 10 + (s[|s| - 1] as int - '0' as int)
  }

  /** The digits of `n` spell `n`. */
  lemma {:induction false} DigitsValue(n: nat)
    ensures ValueOf(Digits(n)) == n
  {
    if n >= 10 {
      DigitsValue(n / 10);
      assert Digits(n)[..|Digits(n)| - 1] == Digits(n / 10);
    }
  }

  /** `str(n)` denotes `n`: the digits after the optional minus sign spell its absolute value. */
  lemma DecimalStringValue(n: int)
    ensures n >= 0 ==> DecimalString(n) == Digits(n) && ValueOf(Digits(n)) == n
    ensures n < 0 ==> DecimalString(n) == "-" + Digits(-n) && ValueOf(Digits(-n)) == -n
  {
    if n < 0 {
      DigitsValue(-n);
    } else {
      DigitsValue(n);
    }
  }
}
