/**
 * The JavaScript built-ins the exporter relies on, written out on strings:
 * the global `parseInt` (no radix argument), `Number.prototype.toString` on
 * integer values, and `String.prototype.replace` with the pattern ",".
 */
module JsRuntime {
  import opened Wrappers
  import opened Text

  // ---------------------------------------------------------------------------
  // Characters

  predicate IsDigit(c: char) { '0' <= c <= '9' }

  predicate IsHexDigit(c: char) { IsDigit(c) || 'a' <= c <= 'f' || 'A' <= c <= 'F' }

  /** A digit of radix 16 when `hex`, of radix 10 otherwise. */
  predicate IsRadixDigit(c: char, hex: bool) { if hex then IsHexDigit(c) else IsDigit(c) }

  function DigitValue(c: char): (v: nat)
    requires IsHexDigit(c)
    ensures v < 16
    ensures IsDigit(c) ==> v < 10
  {
    if IsDigit(c) then c as int - '0' as int
    else if 'a' <= c <= 'f' then c as int - 'a' as int + 10
    else c as int - 'A' as int + 10
  }

  /**
   * The characters TrimString removes from the start of parseInt's argument:
   * WhiteSpace (TAB, VT, FF, ZWNBSP and every space separator) and
   * LineTerminator (LF, CR, LS, PS).
   */
  predicate IsJsSpace(c: char)
  {
    || c == '\t' || c == '\n' || c == '\U{000B}' || c == '\U{000C}' || c == '\r'
    || c == ' ' || c == '\U{00A0}' || c == '\U{1680}' || '\U{2000}' <= c <= '\U{200A}'
    || c == '\U{2028}' || c == '\U{2029}' || c == '\U{202F}' || c == '\U{205F}'
    || c == '\U{3000}' || c == '\U{FEFF}'
  }

  // ---------------------------------------------------------------------------
  // parseInt

  /** `s` without its leading JavaScript white space. */
  function TrimStart(s: string): (r: string)
    ensures |r| <= |s| && r == s[|s| - |r|..]
    ensures r == [] || !IsJsSpace(r[0])
    ensures forall k :: 0 <= k < |s| - |r| ==> IsJsSpace(s[k])
  {
    if s != [] && IsJsSpace(s[0]) then TrimStart(s[1..]) else s
  }

  /** The longest prefix of `s` made of radix digits. */
  function RadixPrefix(s: string, hex: bool): (r: string)
    ensures |r| <= |s| && r == s[..|r|]
    ensures forall k :: 0 <= k < |r| ==> IsRadixDigit(r[k], hex)
    ensures |r| < |s| ==> !IsRadixDigit(s[|r|], hex)
  {
    if s != [] && IsRadixDigit(s[0], hex) then [s[0]] + RadixPrefix(s[1..], hex) else []
  }

  /** The value of a digit string, most significant digit first. */
  function RadixValue(d: string, hex: bool): nat
    requires forall k :: 0 <= k < |d| ==> IsRadixDigit(d[k], hex)
  {
    if d == [] then 0
    else
      assert IsRadixDigit(d[|d| - 1], hex);
      RadixValue(d[..|d| - 1], hex) * (if hex then 16 else 10) + DigitValue(d[|d| - 1])
  }

  /**
   * `parseInt(s)`: skip leading white space, read an optional sign, then the
   * magnitude. None stands for NaN (no digit was read).
   */
  function ParseInt(s: string): Option<int>
  {
    ParseSigned(TrimStart(s))
  }

  /** parseInt after the white space: an optional sign, then the magnitude. */
  function ParseSigned(t: string): Option<int>
  {
    if t != [] && t[0] == '-' then
      var m := ParseMagnitude(t[1..]);
      if m.Some? then Some(-m.value) else None
    else if t != [] && t[0] == '+' then ParseMagnitude(t[1..])
    else ParseMagnitude(t)
  }

  /**
   * The unsigned part of parseInt: radix 16 after a "0x" or "0X" prefix,
   * radix 10 otherwise, and the longest run of digits of that radix.
   */
  function ParseMagnitude(u: string): Option<int>
  {
    var hex := |u| >= 2 && u[0] == '0' && (u[1] == 'x' || u[1] == 'X');
    var digits := RadixPrefix(if hex then u[2..] else u, hex);
    if digits == [] then None else Some(RadixValue(digits, hex))
  }

  /** `parseInt(s) > 0`; NaN compares false. */
  predicate ParsesPositive(s: string)
  {
    var p := ParseInt(s);
    p.Some? && p.value > 0
  }

  // ---------------------------------------------------------------------------
  // Number.prototype.toString on integers

  function DigitChar(d: nat): (c: char)
    requires d < 10
    ensures IsDigit(c) && DigitValue(c) == d
  {
    ('0' as int + d) as char
  }

  /** The decimal digits of `n`, without leading zeros. */
  function NatToDecimal(n: nat): (r: string)
    ensures r != []
    ensures forall k :: 0 <= k < |r| ==> IsDigit(r[k])
    ensures |r| > 1 ==> r[0] != '0'
  {
    if n < 10 then [DigitChar(n)] else NatToDecimal(n / 10) + [DigitChar(n % 10)]
  }

  /** `n.toString()` for an integer value: a minus sign, then the digits of |n|. */
  function IntToDecimal(n: int): (r: string)
    ensures r != []
  {
    if n < 0 then "-" + NatToDecimal(-n) else NatToDecimal(n)
  }

  /** The decimal rendering reads back as the number it renders. */
  lemma {:induction false} NatToDecimalValue(n: nat)
    ensures RadixValue(NatToDecimal(n), false) == n
  {
    if n >= 10 {
      NatToDecimalValue(n / 10);
      var r := NatToDecimal(n);
      assert r[..|r| - 1] == NatToDecimal(n / 10);
    }
  }

  /** A run of decimal digits is its own longest digit prefix. */
  lemma {:induction false} RadixPrefixOfDigits(d: string, hex: bool)
    requires forall k :: 0 <= k < |d| ==> IsRadixDigit(d[k], hex)
    ensures RadixPrefix(d, hex) == d
  {
    if d != [] {
      RadixPrefixOfDigits(d[1..], hex);
    }
  }

  /** parseInt inverts toString on every integer, including zero and negatives. */
  lemma ParseIntOfDecimal(n: int)
    ensures ParseInt(IntToDecimal(n)) == Some(n)
  {
    var s := IntToDecimal(n);
    var m: nat := if n < 0 then -n else n;
    var digits := NatToDecimal(m);
    assert TrimStart(s) == s;
    var u := if n < 0 then s[1..] else s;
    assert u == digits;
    RadixPrefixOfDigits(digits, false);
    NatToDecimalValue(m);
  }

  /** On a string that starts with a decimal digit and not with "0x" or "0X", parseInt reads the leading digit run. */
  lemma ParseIntUnsigned(s: string)
    requires s != [] && IsDigit(s[0])
    requires |s| >= 2 && s[0] == '0' ==> s[1] != 'x' && s[1] != 'X'
    ensures ParseInt(s) == Some(RadixValue(RadixPrefix(s, false), false))
  {
    TrimStartOfDigit(s);
    ParseMagnitudeDecimal(s);
  }

  /** Leading white space does not change what parseInt reads. */
  lemma {:induction false} TrimStartSpaces(ws: string, t: string)
    requires forall k :: 0 <= k < |ws| ==> IsJsSpace(ws[k])
    ensures TrimStart(ws + t) == TrimStart(t)
  {
    if ws == [] {
      assert ws + t == t;
    } else {
      assert (ws + t)[0] == ws[0] && (ws + t)[1..] == ws[1..] + t;
      TrimStartSpaces(ws[1..], t);
    }
  }

  /** parseInt reads the same number after leading white space. */
  lemma ParseIntAfterSpaces(ws: string, t: string)
    requires forall k :: 0 <= k < |ws| ==> IsJsSpace(ws[k])
    ensures ParseInt(ws + t) == ParseInt(t)
  {
    TrimStartSpaces(ws, t);
  }

  lemma TrimStartOfDigit(s: string)
    requires s != [] && IsDigit(s[0])
    ensures TrimStart(s) == s
  {
  }

  lemma ParseMagnitudeDecimal(s: string)
    requires s != [] && IsDigit(s[0])
    requires |s| >= 2 && s[0] == '0' ==> s[1] != 'x' && s[1] != 'X'
    ensures ParseMagnitude(s) == Some(RadixValue(RadixPrefix(s, false), false))
  {
    var hex := |s| >= 2 && s[0] == '0' && (s[1] == 'x' || s[1] == 'X');
    assert !hex;
    assert RadixPrefix(s, false) == [s[0]] + RadixPrefix(s[1..], false);
  }

  /** parseInt(x) > 0 holds of the decimal rendering of x exactly when x > 0. */
  lemma DecimalParsesPositive(n: int)
    ensures ParsesPositive(IntToDecimal(n)) <==> n > 0
  {
    ParseIntOfDecimal(n);
  }

  // ---------------------------------------------------------------------------
  // String.prototype.replace(",", "")

  /**
   * `s.replace(",", "")`: a string pattern matches only at its first
   * occurrence, so the text before the first comma is joined to the text
   * after it; a string without a comma is returned as it is.
   */
  function RemoveFirstComma(s: string): (r: string)
    ensures ',' in s ==> |r| == |s| - 1
    ensures ',' !in s ==> r == s
  {
    if ',' in s then
      var i := IndexOf(s, ',');
      s[..i] + s[i + 1..]
    else s
  }

  /** Removing the first comma takes exactly one comma out and keeps every other character. */
  lemma RemoveFirstCommaCounts(s: string)
    ensures ',' in s ==> multiset(RemoveFirstComma(s)) == multiset(s) - multiset{','}
    ensures ',' in s ==> multiset(RemoveFirstComma(s))[','] == multiset(s)[','] - 1
  {
    if ',' in s {
      var i := IndexOf(s, ',');
      var before, after := s[..i], s[i + 1..];
      assert s == before + [','] + after;
      assert multiset(s) == multiset(before) + multiset{','} + multiset(after);
      assert multiset(RemoveFirstComma(s)) == multiset(before) + multiset(after);
    }
  }

  /**
   * The comma removed is the first one: a comma-free head is joined to
   * everything after it, later commas included (as with the date/time
   * separator of an en-US rendering such as "1/1/2024, 12:00:00 PM").
   */
  lemma RemoveFirstCommaSplice(head: string, tail: string)
    requires ',' !in head
    ensures RemoveFirstComma(head + [','] + tail) == head + tail
  {
    var s := head + [','] + tail;
    IndexOfAfter(head, ',', tail);
    assert s[..|head|] == head;
    assert s[|head| + 1..] == tail;
  }

  /** A string with at most one comma has none left afterwards. */
  lemma RemoveFirstCommaSingle(s: string)
    requires multiset(s)[','] <= 1
    ensures ',' !in RemoveFirstComma(s)
  {
    RemoveFirstCommaCounts(s);
  }
}
