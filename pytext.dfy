/**
 * The two pieces of Python's text handling the core relies on:
 * `str.strip()` with no argument, and `int(text, base)` for the bases 2 and 16
 * that the ASCII-hex and binary decoders pass it.
 */
module PyText {
  import opened Common

  /** The characters `str.isspace()` accepts. */
  predicate IsSpace(c: char) {
    || ('\t' <= c <= '\r')
    || ('\U{1C}' <= c <= '\U{1F}')
    || c == ' '
    || c == '\U{85}'
    || c == '\U{A0}'
    || c == '\U{1680}'
    || ('\U{2000}' <= c <= '\U{200A}')
    || c == '\U{2028}' || c == '\U{2029}'
    || c == '\U{202F}' || c == '\U{205F}'
    || c == '\U{3000}'
  }

  /**
   * Which whitespace a scan skips. `str.strip()` skips every character
   * `str.isspace()` accepts. `int()` skips the ASCII whitespace `\t`..`\r` and
   * space, and the non-ASCII ones it first turns into spaces; the four ASCII
   * separators U+001C..U+001F stay as they are and are not skipped.
   */
  datatype Whitespace = StripSpace | IntSpace

  predicate Skips(ws: Whitespace, c: char) {
    IsSpace(c) && (ws == IntSpace ==> !('\U{1C}' <= c <= '\U{1F}'))
  }

  /** Every character of `s` in the positions `[a, b)` is whitespace of kind `ws`. */
  ghost predicate SpaceBetween(s: string, a: int, b: int, ws: Whitespace)
    requires 0 <= a <= b <= |s|
  {
    forall i :: a <= i < b ==> Skips(ws, s[i])
  }

  /** Where the whitespace run starting at `i` ends: the forward scan past leading whitespace. */
  function SpaceRunEnd(s: string, i: nat, ws: Whitespace): (e: nat)
    requires i <= |s|
    ensures i <= e <= |s|
    decreases |s| - i
  {
    if i < |s| && Skips(ws, s[i]) then SpaceRunEnd(s, i + 1, ws) else i
  }

  /** Where the whitespace run ending at `j` starts, not going below `lo`: the backward scan past trailing whitespace. */
  function SpaceRunStart(s: string, lo: nat, j: nat, ws: Whitespace): (b: nat)
    requires lo <= j <= |s|
    ensures lo <= b <= j
  {
    if j > lo && Skips(ws, s[j - 1]) then SpaceRunStart(s, lo, j - 1, ws) else j
  }

  /** The text between the leading and the trailing whitespace of kind `ws`. */
  function Trim(s: string, ws: Whitespace): (r: string)
    ensures |r| <= |s|
  {
    var a := SpaceRunEnd(s, 0, ws);
    s[a..SpaceRunStart(s, a, |s|, ws)]
  }

  /** `s.strip()`. */
  function Strip(s: string): (r: string)
    ensures |r| <= |s|
  {
    Trim(s, StripSpace)
  }

  /** The forward scan skips only whitespace and stops at the end or at a non-space character. */
  lemma {:induction false} SpaceRunEndSkips(s: string, i: nat, ws: Whitespace)
    requires i <= |s|
    ensures var e := SpaceRunEnd(s, i, ws);
            SpaceBetween(s, i, e, ws) && (e < |s| ==> !Skips(ws, s[e]))
    decreases |s| - i
  {
    if i < |s| && Skips(ws, s[i]) {
      SpaceRunEndSkips(s, i + 1, ws);
    }
  }

  /** The backward scan skips only whitespace and stops at `lo` or after a non-space character. */
  lemma {:induction false} SpaceRunStartSkips(s: string, lo: nat, j: nat, ws: Whitespace)
    requires lo <= j <= |s|
    ensures var b := SpaceRunStart(s, lo, j, ws);
            SpaceBetween(s, b, j, ws) && (b > lo ==> !Skips(ws, s[b - 1]))
  {
    if j > lo && Skips(ws, s[j - 1]) {
      SpaceRunStartSkips(s, lo, j - 1, ws);
    }
  }

  /** What the trim keeps is the middle of `s`: it cuts off only whitespace on either side. */
  lemma StripIsMiddle(s: string, ws: Whitespace)
    ensures var a := SpaceRunEnd(s, 0, ws);
            var b := SpaceRunStart(s, a, |s|, ws);
            && Trim(s, ws) == s[a..b]
            && SpaceBetween(s, 0, a, ws) && SpaceBetween(s, b, |s|, ws)
  {
    SpaceRunEndSkips(s, 0, ws);
    SpaceRunStartSkips(s, SpaceRunEnd(s, 0, ws), |s|, ws);
  }

  /** The trim gives the empty string exactly on all-whitespace input, and otherwise ends on non-space characters. */
  lemma StripEnds(s: string, ws: Whitespace)
    ensures Trim(s, ws) == [] <==> SpaceBetween(s, 0, |s|, ws)
    ensures Trim(s, ws) != [] ==> !Skips(ws, Trim(s, ws)[0]) && !Skips(ws, Trim(s, ws)[|Trim(s, ws)| - 1])
  {
    var a := SpaceRunEnd(s, 0, ws);
    var b := SpaceRunStart(s, a, |s|, ws);
    SpaceRunEndSkips(s, 0, ws);
    SpaceRunStartSkips(s, a, |s|, ws);
    if a < b {
      assert Trim(s, ws)[0] == s[a] && Trim(s, ws)[|Trim(s, ws)| - 1] == s[b - 1];
    }
  }

  /** The two radixes the decoders use. */
  type Base = b: nat | b == 2 || b == 16 witness 2

  predicate IsHexDigit(c: char) {
    '0' <= c <= '9' || 'a' <= c <= 'f' || 'A' <= c <= 'F'
  }

  predicate IsDigitOf(c: char, base: Base) {
    if base == 2 then c == '0' || c == '1' else IsHexDigit(c)
  }

  /** The value of one (ASCII) hexadecimal digit, either case. */
  function DigitValue(c: char): (v: nat)
    requires IsHexDigit(c)
    ensures v < 16
  {
    if '0' <= c <= '9' then c as int - '0' as int
    else if 'a' <= c <= 'f' then c as int - 'a' as int + 10
    else c as int - 'A' as int + 10
  }

  /** The letter of the optional radix prefix: `0x`/`0X` for 16, `0b`/`0B` for 2. */
  predicate IsPrefixLetter(c: char, base: Base) {
    if base == 16 then c == 'x' || c == 'X' else c == 'b' || c == 'B'
  }

  /** A digit string `int()` accepts: digits, with single underscores only between two digits. */
  predicate WellFormedDigits(w: string, base: Base) {
    && |w| > 0
    && IsDigitOf(w[0], base) && IsDigitOf(w[|w| - 1], base)
    && (forall i :: 0 <= i < |w| ==> IsDigitOf(w[i], base) || w[i] == '_')
    && (forall i :: 0 <= i < |w| - 1 ==> !UnderscorePair(w, i))
  }

  /** Two underscores in a row at position `i`, which `int()` rejects. */
  predicate UnderscorePair(w: string, i: nat)
    requires i + 1 < |w|
  {
    w[i] == '_' && w[i + 1] == '_'
  }

  /** The positional value of a digit string, underscores ignored. */
  function DigitsValue(w: string, base: Base): nat
    requires forall i :: 0 <= i < |w| ==> IsDigitOf(w[i], base) || w[i] == '_'
  {
    if w == [] then 0
    else
      var last := w[|w| - 1];
      assert IsDigitOf(last, base) || last == '_';
      if last == '_' then DigitsValue(w[..|w| - 1], base)
      else Shift(DigitsValue(w[..|w| - 1], base), base) + DigitValue(last)
  }

  /** `x * base`, spelled out per radix so that the arithmetic stays linear. */
  function Shift(x: nat, base: Base): nat {
    if base == 2 then 2 * x else 16 * x
  }

  /**
   * `int(s, base)`: `None` where Python raises ValueError. Surrounding whitespace
   * of the kind `int()` skips is dropped, then an optional sign, then an optional radix prefix (which may be
   * followed by one underscore), then the digits.
   */
  function ParseInt(s: string, base: Base): (r: Option<int>)
    ensures r.Some? ==> !SpaceBetween(s, 0, |s|, IntSpace)
  {
    StripEnds(s, IntSpace);
    var t := Trim(s, IntSpace);
    var body := DropPrefix(DropSign(t), base);
    if WellFormedDigits(body, base) then
      var magnitude: int := DigitsValue(body, base);
      Some(if |t| > 0 && t[0] == '-' then -magnitude else magnitude)
    else
      None
  }

  /** The text after an optional leading `+` or `-`. */
  function DropSign(t: string): (u: string)
    ensures |u| <= |t|
  {
    if |t| > 0 && (t[0] == '+' || t[0] == '-') then t[1..] else t
  }

  /** The text after an optional radix prefix and the one underscore allowed right after it. */
  function DropPrefix(u: string, base: Base): (body: string)
    ensures |body| <= |u|
  {
    if |u| >= 2 && u[0] == '0' && IsPrefixLetter(u[1], base) then
      if |u| >= 3 && u[2] == '_' then u[3..] else u[2..]
    else u
  }

  /** The trim leaves a string alone whose ends are not whitespace. */
  lemma StripUnchanged(t: string, ws: Whitespace)
    requires |t| > 0 && !Skips(ws, t[0]) && !Skips(ws, t[|t| - 1])
    ensures Trim(t, ws) == t
  {
    assert SpaceRunEnd(t, 0, ws) == 0;
    assert SpaceRunStart(t, 0, |t|, ws) == |t|;
  }

  /** On a plain string of digits (no sign, space, prefix or underscore) `int()` is the positional value. */
  lemma ParseIntOfDigits(t: string, base: Base)
    requires |t| > 0 && forall i :: 0 <= i < |t| ==> IsDigitOf(t[i], base)
    ensures ParseInt(t, base) == Some(DigitsValue(t, base))
  {
    PlainDigitsBody(t, base);
    assert WellFormedDigits(t, base);
  }

  /** A plain digit string has no whitespace, sign or prefix to drop. */
  lemma PlainDigitsBody(t: string, base: Base)
    requires |t| > 0 && forall i :: 0 <= i < |t| ==> IsDigitOf(t[i], base)
    ensures var u := Trim(t, IntSpace);
            |u| > 0 && u[0] != '-' && DropPrefix(DropSign(u), base) == t
  {
    assert IsDigitOf(t[0], base) && IsDigitOf(t[|t| - 1], base);
    StripUnchanged(t, IntSpace);
    assert DropSign(t) == t;
    if |t| >= 2 {
      assert IsDigitOf(t[1], base);
    }
  }

  /** Two hexadecimal digits read as a number: high digit times sixteen plus low digit. */
  lemma HexPairValue(c0: char, c1: char)
    requires IsHexDigit(c0) && IsHexDigit(c1)
    ensures ParseInt([c0, c1], 16) == Some(16 * DigitValue(c0) + DigitValue(c1))
  {
    var t := [c0, c1];
    assert forall i :: 0 <= i < |t| ==> IsDigitOf(t[i], 16);
    ParseIntOfDigits(t, 16);
    var v: int := 16 * DigitValue(c0) + DigitValue(c1);
    TwoDigitsValue(c0, c1);
    assert DigitsValue(t, 16) == v;
  }

  lemma TwoDigitsValue(c0: char, c1: char)
    requires IsHexDigit(c0) && IsHexDigit(c1)
    ensures DigitsValue([c0, c1], 16) == 16 * DigitValue(c0) + DigitValue(c1)
  {
    var t := [c0, c1];
    assert t[..1] == [c0] && [c0][..0] == [];
    assert DigitsValue([c0], 16) == DigitValue(c0);
  }

  /** `strip()` removes a leading U+001C, but `int()` does not skip it and rejects the text. */
  lemma SeparatorNotSkippedByInt()
    ensures Strip("\U{1C}5") == "5"
    ensures ParseInt("\U{1C}5", 16) == None
  {
    var s := "\U{1C}5";
    assert SpaceRunEnd(s, 0, StripSpace) == 1;
    assert SpaceRunStart(s, 1, 2, StripSpace) == 2;
    assert SpaceRunEnd(s, 0, IntSpace) == 0;
    assert SpaceRunStart(s, 0, 2, IntSpace) == 2;
    assert Trim(s, IntSpace) == s;
    assert DropPrefix(DropSign(s), 16) == s;
    assert !IsDigitOf(s[0], 16);
  }
}
