/** Character and string helpers shared by the importers: ASCII case folding,
    decimal digits, the number and boolean parsers of .NET restricted to what the
    importers feed them, and splitting on a separator character. */
module Text {
  import opened Wrappers

  predicate IsDigit(c: char) {
    '0' <= c <= '9'
  }

  predicate AllDigits(s: string) {
    forall i :: 0 <= i < |s| ==> IsDigit(s[i])
  }

  function LowerChar(c: char): char {
    if 'A' <= c <= 'Z' then (c as int + 32) as char else c
  }

  function Lower(s: string): (r: string)
    ensures |r| == |s| && forall i :: 0 <= i < |s| ==> r[i] == LowerChar(s[i])
  {
    seq(|s|, i requires 0 <= i < |s| => LowerChar(s[i]))
  }

  /** Ordinal comparison ignoring ASCII case. */
  predicate EqualsIgnoreCase(a: string, b: string) {
    Lower(a) == Lower(b)
  }

  predicate EndsWithIgnoreCase(s: string, suffix: string) {
    |suffix| <= |s| && EqualsIgnoreCase(s[|s| - |suffix|..], suffix)
  }

  /** The value of a string of decimal digits (leading zeros allowed). */
  function DigitsValue(s: string): nat
    requires AllDigits(s)
  {
    if s == [] then 0 else DigitsValue(s[..|s| - 1]) * 10 + (s[|s| - 1] as int - '0' as int)
  }

  /** The decimal representation of `n`, without leading zeros. */
  function DecimalOf(n: nat): (s: string)
    ensures s != [] && AllDigits(s)
    decreases n
  {
    var d := [(n % 10 + '0' as int) as char];
    if n < 10 then d else DecimalOf(n / 10) + d
  }

  lemma {:induction false} DecimalRoundTrip(n: nat)
    ensures DigitsValue(DecimalOf(n)) == n
    decreases n
  {
    var d := [(n % 10 + '0' as int) as char];
    if n < 10 {
      assert DecimalOf(n)[..0] == [];
    } else {
      DecimalRoundTrip(n / 10);
      assert (DecimalOf(n / 10) + d)[..|DecimalOf(n / 10)|] == DecimalOf(n / 10);
    }
  }

  const Int32Max: nat := 0x7FFF_FFFF
  const UInt16Max: nat := 0xFFFF
  const ByteMax: nat := 0xFF
  const Int16Min: int := -0x8000
  const Int16Max: int := 0x7FFF

  /** The whitespace .NET's integer parsing accepts around a number: tab to
      carriage return, and space. */
  predicate IsWhite(c: char) {
    c == ' ' || '\t' <= c <= '\r'
  }

  predicate IsNul(c: char) {
    c == '\0'
  }

  /** What Boolean.Parse trims: char.IsWhiteSpace (the Unicode space, line and
      paragraph separators, tab to carriage return, and U+0085) and NUL. */
  predicate IsBoolBlank(c: char) {
    IsWhite(c) || c == '\0' || c == '\U{0085}' || c == '\U{00A0}' || c == '\U{1680}' ||
    '\U{2000}' <= c <= '\U{200A}' || c == '\U{2028}' || c == '\U{2029}' || c == '\U{202F}' ||
    c == '\U{205F}' || c == '\U{3000}'
  }

  /** `s` without the leading characters `blank` holds for. */
  function TrimStart(s: string, blank: char -> bool): (r: string)
    ensures |r| <= |s| && (r != [] ==> !blank(r[0]))
  {
    if s != [] && blank(s[0]) then TrimStart(s[1..], blank) else s
  }

  /** `s` without the trailing characters `blank` holds for. */
  function TrimEnd(s: string, blank: char -> bool): (r: string)
    ensures |r| <= |s| && (r != [] ==> !blank(r[|r| - 1]))
  {
    if s != [] && blank(s[|s| - 1]) then TrimEnd(s[..|s| - 1], blank) else s
  }

  function Trim(s: string): string {
    TrimEnd(TrimStart(s, IsWhite), IsWhite)
  }

  /** The body of a number's text: .NET takes whitespace, the number, whitespace,
      then any number of NUL characters. */
  function NumberText(s: string): string {
    Trim(TrimEnd(s, IsNul))
  }

  /** The text Boolean.Parse compares, with blanks trimmed from both ends. */
  function BoolBody(s: string): string {
    TrimEnd(TrimStart(s, IsBoolBlank), IsBoolBlank)
  }

  /** Int32.TryParse of a digit string: the value when it is at most Int32.MaxValue. */
  function TryParseInt32Digits(s: string): (r: Option<nat>)
    requires AllDigits(s)
    ensures r.Some? <==> s != [] && DigitsValue(s) <= Int32Max
    ensures r.Some? ==> r.value == DigitsValue(s)
  {
    if s != [] && DigitsValue(s) <= Int32Max then Some(DigitsValue(s)) else None
  }

  /** The digits of an unsigned number's text: what is left once the surrounding
      whitespace, the trailing NULs and one leading '+' are taken off. */
  function UnsignedDigits(s: string): string {
    var t := NumberText(s);
    if t != [] && t[0] == '+' then t[1..] else t
  }

  /** UInt16.Parse, Byte.Parse, UInt32.Parse: surrounding whitespace, trailing
      NULs, an optional '+', at least one digit, and a value at most `max`. */
  function ParseUnsigned(s: string, max: nat): (r: Option<nat>)
    ensures r.Some? <==> UnsignedDigits(s) != [] && AllDigits(UnsignedDigits(s)) &&
                         DigitsValue(UnsignedDigits(s)) <= max
    ensures r.Some? ==> r.value == DigitsValue(UnsignedDigits(s)) && r.value <= max
  {
    var digits := UnsignedDigits(s);
    if digits != [] && AllDigits(digits) && DigitsValue(digits) <= max then Some(DigitsValue(digits))
    else None
  }

  /** The text of a negative Int16: a leading '-' once the whitespace and the
      trailing NULs are taken off. */
  predicate IsNegativeText(s: string) {
    NumberText(s) != [] && NumberText(s)[0] == '-'
  }

  /** Int16.Parse: as ParseUnsigned, with an optional leading '-' as well. */
  function ParseInt16(s: string): (r: Option<int>)
    ensures IsNegativeText(s) ==>
      var digits := NumberText(s)[1..];
      (r.Some? <==> digits != [] && AllDigits(digits) && DigitsValue(digits) <= -Int16Min) &&
      (r.Some? ==> r.value == -(DigitsValue(digits) as int))
    ensures !IsNegativeText(s) ==>
      (r.Some? <==> UnsignedDigits(s) != [] && AllDigits(UnsignedDigits(s)) &&
                    DigitsValue(UnsignedDigits(s)) <= Int16Max) &&
      (r.Some? ==> r.value == DigitsValue(UnsignedDigits(s)))
    ensures r.Some? ==> Int16Min <= r.value <= Int16Max
  {
    var t := NumberText(s);
    if t != [] && t[0] == '-' then
      var digits := t[1..];
      if digits != [] && AllDigits(digits) && DigitsValue(digits) <= -Int16Min then
        var magnitude: int := DigitsValue(digits);
        Some(-magnitude)
      else None
    else
      match ParseUnsigned(s, Int16Max)
      case Some(v) => Some(v)
      case None => None
  }

  /** Boolean.Parse: "true" or "false" in any case, with surrounding blanks. */
  function ParseBool(s: string): (r: Option<bool>)
    ensures r == Some(true) <==> EqualsIgnoreCase(BoolBody(s), "true")
    ensures r == Some(false) <==> EqualsIgnoreCase(BoolBody(s), "false")
    ensures r.Some? <==> EqualsIgnoreCase(BoolBody(s), "true") || EqualsIgnoreCase(BoolBody(s), "false")
  {
    var t := BoolBody(s);
    if EqualsIgnoreCase(t, "true") then Some(true)
    else if EqualsIgnoreCase(t, "false") then Some(false)
    else None
  }

  lemma TrimDigits(s: string)
    requires s != [] && AllDigits(s)
    ensures NumberText(s) == s
  {
    assert !IsNul(s[|s| - 1]) && !IsWhite(s[0]) && !IsWhite(s[|s| - 1]);
  }

  /** A number written in decimal parses back to itself when it is in range. */
  lemma ParseUnsignedOfDecimal(n: nat, max: nat)
    requires n <= max
    ensures ParseUnsigned(DecimalOf(n), max) == Some(n)
  {
    TrimDigits(DecimalOf(n));
    DecimalRoundTrip(n);
  }

  // ---------------------------------------------------------------------------
  // String.Split(char)

  /** String.Split with one separator character: the pieces between separators,
      always at least one (possibly empty) piece. */
  function Split(s: string, sep: char): (pieces: seq<string>)
    ensures |pieces| >= 1
    ensures forall i :: 0 <= i < |pieces| ==> sep !in pieces[i]
    decreases |s|
  {
    if s == [] then [""]
    else
      var rest := Split(s[1..], sep);
      if s[0] == sep then [""] + rest
      else [[s[0]] + rest[0]] + rest[1..]
  }

  /** The pieces joined back with the separator. */
  function Join(pieces: seq<string>, sep: char): string
    requires |pieces| >= 1
    decreases |pieces|
  {
    if |pieces| == 1 then pieces[0] else pieces[0] + [sep] + Join(pieces[1..], sep)
  }

  lemma {:induction false} SplitPrefix(p: string, s: string, sep: char)
    requires sep !in p
    ensures Split(p + s, sep) == [p + Split(s, sep)[0]] + Split(s, sep)[1..]
    decreases |p|
  {
    var rs := Split(s, sep);
    if p != [] {
      SplitPrefix(p[1..], s, sep);
      assert (p + s)[1..] == p[1..] + s;
      assert (p + s)[0] == p[0] != sep;
      var rest := Split(p[1..] + s, sep);
      assert rest == [p[1..] + rs[0]] + rs[1..];
      assert rest[1..] == rs[1..];
      assert [p[0]] + (p[1..] + rs[0]) == p + rs[0];
    } else {
      assert p + s == s && p + rs[0] == rs[0];
      assert rs == [rs[0]] + rs[1..];
    }
  }

  /** Splitting undoes joining when no piece contains the separator. */
  lemma {:induction false} SplitJoin(pieces: seq<string>, sep: char)
    requires |pieces| >= 1 && forall i :: 0 <= i < |pieces| ==> sep !in pieces[i]
    ensures Split(Join(pieces, sep), sep) == pieces
    decreases |pieces|
  {
    if |pieces| == 1 {
      SplitPrefix(pieces[0], "", sep);
      assert pieces[0] + "" == pieces[0];
    } else {
      var rest := Join(pieces[1..], sep);
      SplitJoin(pieces[1..], sep);
      assert pieces[0] + [sep] + rest == pieces[0] + ([sep] + rest);
      SplitPrefix(pieces[0], [sep] + rest, sep);
      assert ([sep] + rest)[1..] == rest;
      assert Split([sep] + rest, sep) == [""] + pieces[1..];
      assert pieces[0] + "" == pieces[0];
      assert pieces == [pieces[0]] + pieces[1..];
    }
  }
}
