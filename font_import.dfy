/** The font importer: each placed glyph sheet of an atlas page becomes a page
    item and the texture of the font named after the file; the font's other
    fields are read from its glyph file, a text file of ';'-separated rows.

    The first non-blank row is the header (display name, em size, bold, italic,
    charset, anti-aliasing, scale), the next one also sets the first character
    of the range, and every row after the header is a glyph; the last glyph read
    gives the end of the range. A row that fails to parse is remembered and the
    reader goes on; the failure is reported once the whole file has been read.

    The file system is a map from font name to the file's lines: a name without
    an entry is a missing file. */
module FontImport {
  import opened Wrappers
  import opened Text
  import opened Geometry
  import AtlasLayout
  import opened SpriteNames
  import opened SpriteImport

  datatype Glyph = Glyph(character: nat, sourceX: nat, sourceY: nat, sourceWidth: nat,
                         sourceHeight: nat, shift: int, offset: int)

  /** The fields of a font that its glyph file sets. */
  datatype FontFields = FontFields(displayName: string, emSize: nat, bold: bool, italic: bool,
                                   charset: nat, antiAliasing: nat, scaleX: nat, scaleY: nat,
                                   rangeStart: nat, rangeEnd: nat, glyphs: seq<Glyph>)

  /** The reader between two rows: the font so far, which row comes next
      (0 the header, 1 the first glyph, 2 any further glyph) and whether some
      row has failed. */
  datatype Reader = Reader(font: FontFields, head: nat, hadError: bool)

  /** The fields of a font UndertaleModLib has just created. */
  const NewFontFields: FontFields := FontFields("", 0, false, false, 0, 0, 0, 0, 0, 0, [])

  // ---------------------------------------------------------------------------
  // One row

  /** A row whose fields are all empty, such as ";;;;;;", is skipped. */
  predicate Blank(s: seq<string>) {
    forall i :: 0 <= i < |s| ==> s[i] == []
  }

  /** String.Replace("\"", ""): the text without its double quotes. */
  function RemoveQuotes(s: string): (r: string)
    ensures '"' !in r && |r| <= |s|
    ensures '"' !in s ==> r == s
  {
    if s == [] then [] else (if s[0] == '"' then [] else [s[0]]) + RemoveQuotes(s[1..])
  }

  /** UInt16.Parse, Byte.Parse, Int16.Parse and Boolean.Parse of field `i`;
      a missing field fails like a malformed one. */
  function UInt16At(s: seq<string>, i: nat): Option<nat> {
    if i < |s| then ParseUnsigned(s[i], UInt16Max) else None
  }

  function ByteAt(s: seq<string>, i: nat): Option<nat> {
    if i < |s| then ParseUnsigned(s[i], ByteMax) else None
  }

  function Int16At(s: seq<string>, i: nat): Option<int> {
    if i < |s| then ParseInt16(s[i]) else None
  }

  function BoolAt(s: seq<string>, i: nat): Option<bool> {
    if i < |s| then ParseBool(s[i]) else None
  }

  /** A glyph row: the glyph is built only when all seven fields parse. */
  function GlyphRow(s: seq<string>): (g: Option<Glyph>)
    ensures g.Some? <==> UInt16At(s, 0).Some? && UInt16At(s, 1).Some? && UInt16At(s, 2).Some? &&
                         UInt16At(s, 3).Some? && UInt16At(s, 4).Some? && Int16At(s, 5).Some? &&
                         Int16At(s, 6).Some?
    ensures g.Some? ==> g.value.character == UInt16At(s, 0).value && GlyphInRange(g.value)
  {
    match (UInt16At(s, 0), UInt16At(s, 1), UInt16At(s, 2), UInt16At(s, 3), UInt16At(s, 4),
           Int16At(s, 5), Int16At(s, 6))
    case (Some(c), Some(x), Some(y), Some(w), Some(h), Some(shift), Some(offset)) =>
      Some(Glyph(c, x, y, w, h, shift, offset))
    case _ => None
  }

  /** The header fields 1 to 7 of a row as the header row parses them. */
  datatype HeaderValues = HeaderValues(emSize: Option<nat>, bold: Option<bool>, italic: Option<bool>,
                                       charset: Option<nat>, antiAliasing: Option<nat>,
                                       scaleX: Option<nat>, scaleY: Option<nat>)

  /** What a row's fields hold, for each way the reader may take the row: as the
      header (its name and header fields), as the row that starts the range (its
      first field) or as a glyph. */
  datatype Row = Row(blank: bool, name: string, header: HeaderValues, first: Option<nat>,
                     glyph: Option<Glyph>)

  function ParseRow(s: seq<string>): Row {
    Row(Blank(s), if |s| >= 1 then RemoveQuotes(s[0]) else "",
        HeaderValues(UInt16At(s, 1), BoolAt(s, 2), BoolAt(s, 3), ByteAt(s, 4), ByteAt(s, 5),
                     UInt16At(s, 6), UInt16At(s, 7)),
        UInt16At(s, 0), GlyphRow(s))
  }

  /** Header field `k` (1 em size, 2 bold, 3 italic, 4 charset, 5 anti-aliasing,
      6 and 7 the scale) parses. */
  predicate FieldParses(h: HeaderValues, k: nat) {
    if k == 1 then h.emSize.Some?
    else if k == 2 then h.bold.Some?
    else if k == 3 then h.italic.Some?
    else if k == 4 then h.charset.Some?
    else if k == 5 then h.antiAliasing.Some?
    else if k == 6 then h.scaleX.Some?
    else h.scaleY.Some?
  }

  /** Every header field parses. */
  predicate HeaderParses(h: HeaderValues) {
    forall k :: 1 <= k <= 7 ==> FieldParses(h, k)
  }

  /** Header field `k` assigned to `f`, when it parses. */
  function SetHeaderField(f: FontFields, h: HeaderValues, k: nat): (r: Option<FontFields>)
    requires 1 <= k <= 7
    ensures r.Some? <==> FieldParses(h, k)
    ensures r.Some? ==> r.value.displayName == f.displayName && r.value.glyphs == f.glyphs &&
                        r.value.rangeStart == f.rangeStart && r.value.rangeEnd == f.rangeEnd
  {
    if k == 1 then (if h.emSize.Some? then Some(f.(emSize := h.emSize.value)) else None)
    else if k == 2 then (if h.bold.Some? then Some(f.(bold := h.bold.value)) else None)
    else if k == 3 then (if h.italic.Some? then Some(f.(italic := h.italic.value)) else None)
    else if k == 4 then (if h.charset.Some? then Some(f.(charset := h.charset.value)) else None)
    else if k == 5 then (if h.antiAliasing.Some? then Some(f.(antiAliasing := h.antiAliasing.value)) else None)
    else if k == 6 then (if h.scaleX.Some? then Some(f.(scaleX := h.scaleX.value)) else None)
    else (if h.scaleY.Some? then Some(f.(scaleY := h.scaleY.value)) else None)
  }

  /** Header fields `k` to 7 assigned one after the other: the first that fails
      to parse stops the row, and the fields before it keep their new values.
      The flag tells whether the row was read to the end. */
  function HeaderFrom(f: FontFields, h: HeaderValues, k: nat): (r: (FontFields, bool))
    requires 1 <= k <= 8
    ensures r.0.displayName == f.displayName && r.0.glyphs == f.glyphs &&
            r.0.rangeStart == f.rangeStart && r.0.rangeEnd == f.rangeEnd
    ensures r.1 <==> forall j :: k <= j <= 7 ==> FieldParses(h, j)
    decreases 8 - k
  {
    if k == 8 then (f, true)
    else match SetHeaderField(f, h, k)
      case None => (f, false)
      case Some(next) => HeaderFrom(next, h, k + 1)
  }

  /** The header row: the display name without its quotes, then the other fields. */
  function HeaderRow(f: FontFields, row: Row): (FontFields, bool) {
    HeaderFrom(f.(displayName := row.name), row.header, 1)
  }

  /** A header row either is read in full, setting every header field and
      nothing else, or fails; when its em size fails only the name is set. */
  lemma HeaderRowMeaning(f: FontFields, row: Row)
    ensures var r := HeaderRow(f, row);
      var h := row.header;
      (r.1 <==> HeaderParses(h)) &&
      (r.1 ==> r.0 == f.(displayName := row.name, emSize := h.emSize.value,
                         bold := h.bold.value, italic := h.italic.value,
                         charset := h.charset.value, antiAliasing := h.antiAliasing.value,
                         scaleX := h.scaleX.value, scaleY := h.scaleY.value)) &&
      (h.emSize.None? ==> r.0 == f.(displayName := row.name)) &&
      r.0.displayName == row.name &&
      r.0.glyphs == f.glyphs && r.0.rangeStart == f.rangeStart && r.0.rangeEnd == f.rangeEnd
  {
    var h := row.header;
    var f0 := f.(displayName := row.name);
    if HeaderParses(h) {
      assert FieldParses(h, 1) && FieldParses(h, 2) && FieldParses(h, 3) && FieldParses(h, 4);
      assert FieldParses(h, 5) && FieldParses(h, 6) && FieldParses(h, 7);
      var f1 := f0.(emSize := h.emSize.value);
      var f2 := f1.(bold := h.bold.value);
      var f3 := f2.(italic := h.italic.value);
      var f4 := f3.(charset := h.charset.value);
      var f5 := f4.(antiAliasing := h.antiAliasing.value);
      var f6 := f5.(scaleX := h.scaleX.value);
      var f7 := f6.(scaleY := h.scaleY.value);
      assert HeaderFrom(f0, h, 1) == HeaderFrom(f1, h, 2);
      assert HeaderFrom(f1, h, 2) == HeaderFrom(f2, h, 3);
      assert HeaderFrom(f2, h, 3) == HeaderFrom(f3, h, 4);
      assert HeaderFrom(f3, h, 4) == HeaderFrom(f4, h, 5);
      assert HeaderFrom(f4, h, 5) == HeaderFrom(f5, h, 6);
      assert HeaderFrom(f5, h, 6) == HeaderFrom(f6, h, 7);
      assert HeaderFrom(f6, h, 7) == HeaderFrom(f7, h, 8);
    }
  }

  /** A glyph row read: the glyph is appended and ends the range, or the row fails. */
  function GlyphStep(r: Reader, row: Row): Reader {
    match row.glyph
    case None => r.(hadError := true)
    case Some(g) => r.(font := r.font.(glyphs := r.font.glyphs + [g], rangeEnd := g.character))
  }

  /** One row of the file read. */
  function Step(r: Reader, row: Row): (r': Reader)
    ensures row.blank ==> r' == r
  {
    if row.blank then r
    else if r.head == 1 then
      match row.first
      case None => r.(hadError := true)
      case Some(start) => GlyphStep(Reader(r.font.(rangeStart := start), 2, r.hadError), row)
    else if r.head == 0 then
      var (f, ok) := HeaderRow(r.font, row);
      if ok then Reader(f, 1, r.hadError) else Reader(f, 0, true)
    else GlyphStep(r, row)
  }

  /** What one row does. A header that fails leaves the reader expecting a
      header again; the row after the header starts the range and is a glyph as
      well; a glyph is appended, and ends the range, exactly when its row parses,
      and a row that fails is remembered. */
  lemma StepMeaning(r: Reader, row: Row)
    requires r.head <= 2 && !row.blank
    ensures var r' := Step(r, row);
      (r.hadError ==> r'.hadError) && r.head <= r'.head <= 2 &&
      (r.head == 0 ==>
         r'.head == (if HeaderParses(row.header) then 1 else 0) &&
         r'.hadError == (r.hadError || !HeaderParses(row.header)) &&
         r'.font.glyphs == r.font.glyphs && r'.font.displayName == row.name) &&
      (r.head == 1 && row.first.None? ==> r' == r.(hadError := true)) &&
      (r.head == 1 && row.first.Some? ==> r'.head == 2 && r'.font.rangeStart == row.first.value) &&
      (r.head >= 1 && row.glyph.Some? && (r.head == 2 || row.first.Some?) ==>
         r'.font.glyphs == r.font.glyphs + [row.glyph.value] &&
         r'.font.rangeEnd == row.glyph.value.character && r'.hadError == r.hadError) &&
      (r.head >= 1 && row.glyph.None? ==>
         r'.font.glyphs == r.font.glyphs && r'.font.rangeEnd == r.font.rangeEnd && r'.hadError)
  {
    if r.head == 0 {
      HeaderRowMeaning(r.font, row);
    }
  }

  // ---------------------------------------------------------------------------
  // The whole file

  /** The lines of the file, each split on ';' and parsed. */
  function Rows(lines: seq<string>): (rows: seq<Row>)
    ensures |rows| == |lines| && forall i :: 0 <= i < |lines| ==> rows[i] == ParseRow(Split(lines[i], ';'))
  {
    seq(|lines|, i requires 0 <= i < |lines| => ParseRow(Split(lines[i], ';')))
  }

  /** The rows read one after the other from `start`. */
  function ReadRows(start: Reader, rows: seq<Row>): Reader {
    if rows == [] then start else Step(ReadRows(start, rows[..|rows| - 1]), rows[|rows| - 1])
  }

  /** The glyph file read into a font whose fields were `before`: its glyphs are
      cleared first, then every line is read. */
  function Read(lines: seq<string>, before: FontFields): Reader {
    ReadRows(Reader(before.(glyphs := []), 0, false), Rows(lines))
  }

  lemma SplitAt<X>(xs: seq<X>, k: nat)
    requires k <= |xs|
    ensures xs[..k] + xs[k..] == xs
  {
  }

  lemma PrefixOfPrefix<X>(xs: seq<X>, k: nat)
    requires k < |xs|
    ensures xs[..k + 1][..k] == xs[..k] && |xs[..k + 1]| == k + 1 && xs[..k + 1][k] == xs[k]
  {
  }

  lemma FirstTwo<X>(xs: seq<X>)
    requires |xs| >= 2
    ensures xs[..2] == [xs[0], xs[1]] && [xs[0]] + xs[1..] == xs && |xs[2..]| == |xs| - 2
    ensures forall i :: 0 <= i < |xs| - 2 ==> xs[2..][i] == xs[i + 2]
  {
  }

  /** Reading one more row is one more step. */
  lemma ReadRowsPrefix(start: Reader, rows: seq<Row>, k: nat)
    requires k < |rows|
    ensures ReadRows(start, rows[..k + 1]) == Step(ReadRows(start, rows[..k]), rows[k])
  {
    PrefixOfPrefix(rows, k);
  }

  lemma {:induction false} ReadRowsAppend(start: Reader, rows: seq<Row>, more: seq<Row>)
    ensures ReadRows(start, rows + more) == ReadRows(ReadRows(start, rows), more)
    decreases |more|
  {
    if more == [] {
      assert rows + more == rows;
    } else {
      var last := |more| - 1;
      ReadRowsAppend(start, rows, more[..last]);
      assert (rows + more)[..|rows + more| - 1] == rows + more[..last];
    }
  }

  /** Reading never forgets: an error once seen is reported, the glyphs read so
      far stay in front, in order, and the reader never goes back to an earlier
      kind of row. */
  lemma {:induction false} ReadRowsMonotone(start: Reader, rows: seq<Row>)
    requires start.head <= 2
    ensures var r := ReadRows(start, rows);
      (start.hadError ==> r.hadError) && start.font.glyphs <= r.font.glyphs &&
      |r.font.glyphs| <= |start.font.glyphs| + |rows| && start.head <= r.head <= 2
  {
    if rows != [] {
      var before := ReadRows(start, rows[..|rows| - 1]);
      ReadRowsMonotone(start, rows[..|rows| - 1]);
      if !rows[|rows| - 1].blank {
        StepMeaning(before, rows[|rows| - 1]);
      }
    }
  }

  /** A file with a row that is not blank but fails to parse is reported as
      invalid, whatever the rows around it. */
  lemma FailingRowFails(start: Reader, rows: seq<Row>, k: nat)
    requires start.head <= 2 && k < |rows|
    requires Step(ReadRows(start, rows[..k]), rows[k]).hadError
    ensures ReadRows(start, rows).hadError
  {
    ReadRowsAppend(start, rows[..k + 1], rows[k + 1..]);
    SplitAt(rows, k + 1);
    ReadRowsPrefix(start, rows, k);
    ReadRowsMonotone(start, rows[..k + 1]);
    ReadRowsMonotone(ReadRows(start, rows[..k + 1]), rows[k + 1..]);
  }

  // ---------------------------------------------------------------------------
  // The file a font is written as, and read back

  function BoolText(b: bool): string {
    if b then "True" else "False"
  }

  function Int16Text(v: int): string {
    if v < 0 then "-" + DecimalOf(-v) else DecimalOf(v)
  }

  function HeaderFields(f: FontFields): seq<string> {
    ["\"" + f.displayName + "\"", DecimalOf(f.emSize), BoolText(f.bold), BoolText(f.italic),
     DecimalOf(f.charset), DecimalOf(f.antiAliasing), DecimalOf(f.scaleX), DecimalOf(f.scaleY)]
  }

  function GlyphFields(g: Glyph): seq<string> {
    [DecimalOf(g.character), DecimalOf(g.sourceX), DecimalOf(g.sourceY), DecimalOf(g.sourceWidth),
     DecimalOf(g.sourceHeight), Int16Text(g.shift), Int16Text(g.offset)]
  }

  function GlyphLines(gs: seq<Glyph>): (lines: seq<string>)
    ensures |lines| == |gs| && forall i :: 0 <= i < |gs| ==> lines[i] == Join(GlyphFields(gs[i]), ';')
  {
    seq(|gs|, i requires 0 <= i < |gs| => Join(GlyphFields(gs[i]), ';'))
  }

  /** A glyph file holding exactly the font's fields: the header, then one row
      per glyph. */
  function WriteFont(f: FontFields): seq<string> {
    [Join(HeaderFields(f), ';')] + GlyphLines(f.glyphs)
  }

  predicate GlyphInRange(g: Glyph) {
    g.character <= UInt16Max && g.sourceX <= UInt16Max && g.sourceY <= UInt16Max &&
    g.sourceWidth <= UInt16Max && g.sourceHeight <= UInt16Max &&
    Int16Min <= g.shift <= Int16Max && Int16Min <= g.offset <= Int16Max
  }

  /** A font the glyph file can describe: values in range, a name without quotes
      or separators, at least one glyph, and the range running from the first
      glyph's character to the last one's. */
  predicate Writable(f: FontFields) {
    '"' !in f.displayName && ';' !in f.displayName &&
    f.emSize <= UInt16Max && f.charset <= ByteMax && f.antiAliasing <= ByteMax &&
    f.scaleX <= UInt16Max && f.scaleY <= UInt16Max &&
    f.glyphs != [] && (forall i :: 0 <= i < |f.glyphs| ==> GlyphInRange(f.glyphs[i])) &&
    f.rangeStart == f.glyphs[0].character && f.rangeEnd == f.glyphs[|f.glyphs| - 1].character
  }

  lemma ParseBoolText(b: bool)
    ensures ParseBool(BoolText(b)) == Some(b)
  {
    var t := BoolText(b);
    assert TrimStart(t, IsBoolBlank) == t && TrimEnd(t, IsBoolBlank) == t;
    if b {
      assert Lower(t) == "true";
    } else {
      assert Lower(t) == "false";
    }
  }

  lemma ParseInt16Text(v: int)
    requires Int16Min <= v <= Int16Max
    ensures ParseInt16(Int16Text(v)) == Some(v)
  {
    if v < 0 {
      ParseNegativeText(v);
    } else {
      var d := DecimalOf(v);
      TrimDigits(d);
      assert d[0] != '-' by { assert IsDigit(d[0]); }
      ParseUnsignedOfDecimal(v, Int16Max);
    }
  }

  /** A negative value: its sign, then its magnitude in decimal. */
  lemma ParseNegativeText(v: int)
    requires Int16Min <= v < 0
    ensures ParseInt16("-" + DecimalOf(-v)) == Some(v)
  {
    var d := DecimalOf(-v);
    var t := "-" + d;
    assert NumberText(t) == t by {
      assert t[|t| - 1] == d[|d| - 1] && IsDigit(t[|t| - 1]);
      assert TrimEnd(t, IsNul) == t;
      assert TrimStart(t, IsWhite) == t;
      assert TrimEnd(t, IsWhite) == t;
    }
    assert t[1..] == d;
    DecimalRoundTrip(-v);
  }

  lemma {:induction false} RemoveQuotesAppend(a: string, b: string)
    ensures RemoveQuotes(a + b) == RemoveQuotes(a) + RemoveQuotes(b)
  {
    if a != [] {
      assert (a + b)[1..] == a[1..] + b;
      RemoveQuotesAppend(a[1..], b);
    } else {
      assert a + b == b;
    }
  }

  lemma RemoveSurroundingQuotes(name: string)
    requires '"' !in name
    ensures RemoveQuotes("\"" + name + "\"") == name
  {
    RemoveQuotesAppend("\"" + name, "\"");
    RemoveQuotesAppend("\"", name);
  }

  lemma DigitsHaveNoSeparator(n: nat)
    ensures ';' !in DecimalOf(n)
  {
    var d := DecimalOf(n);
    forall i | 0 <= i < |d|
      ensures d[i] != ';'
    {
      assert IsDigit(d[i]);
    }
  }

  lemma Int16TextHasNoSeparator(v: int)
    ensures ';' !in Int16Text(v)
  {
    if v < 0 {
      DigitsHaveNoSeparator(-v);
      assert "-" + DecimalOf(-v) == ['-'] + DecimalOf(-v);
    } else {
      DigitsHaveNoSeparator(v);
    }
  }

  /** The written header line reads back as the font's name and header fields. */
  lemma HeaderRowOfFields(f: FontFields)
    requires Writable(f)
    ensures var row := ParseRow(Split(Join(HeaderFields(f), ';'), ';'));
      !row.blank && row.name == f.displayName &&
      row.header == HeaderValues(Some(f.emSize), Some(f.bold), Some(f.italic), Some(f.charset),
                                 Some(f.antiAliasing), Some(f.scaleX), Some(f.scaleY))
  {
    var s := HeaderFields(f);
    assert ';' !in s[0] by {
      assert s[0] == ['"'] + f.displayName + ['"'];
    }
    DigitsHaveNoSeparator(f.emSize);
    DigitsHaveNoSeparator(f.charset);
    DigitsHaveNoSeparator(f.antiAliasing);
    DigitsHaveNoSeparator(f.scaleX);
    DigitsHaveNoSeparator(f.scaleY);
    assert ';' !in s[2] && ';' !in s[3];
    SplitJoin(s, ';');
    HeaderFieldsParse(f);
  }

  /** The header's fields, once split, parse as the font's name and values. */
  lemma HeaderFieldsParse(f: FontFields)
    requires Writable(f)
    ensures var row := ParseRow(HeaderFields(f));
      !row.blank && row.name == f.displayName &&
      row.header == HeaderValues(Some(f.emSize), Some(f.bold), Some(f.italic), Some(f.charset),
                                 Some(f.antiAliasing), Some(f.scaleX), Some(f.scaleY))
  {
    var s := HeaderFields(f);
    assert s[1] != [];
    RemoveSurroundingQuotes(f.displayName);
    ParseUnsignedOfDecimal(f.emSize, UInt16Max);
    ParseBoolText(f.bold);
    ParseBoolText(f.italic);
    ParseUnsignedOfDecimal(f.charset, ByteMax);
    ParseUnsignedOfDecimal(f.antiAliasing, ByteMax);
    ParseUnsignedOfDecimal(f.scaleX, UInt16Max);
    ParseUnsignedOfDecimal(f.scaleY, UInt16Max);
  }

  /** A written glyph line reads back as that glyph. */
  lemma GlyphRowOfFields(g: Glyph)
    requires GlyphInRange(g)
    ensures var row := ParseRow(Split(Join(GlyphFields(g), ';'), ';'));
      !row.blank && row.first == Some(g.character) && row.glyph == Some(g)
  {
    var s := GlyphFields(g);
    DigitsHaveNoSeparator(g.character);
    DigitsHaveNoSeparator(g.sourceX);
    DigitsHaveNoSeparator(g.sourceY);
    DigitsHaveNoSeparator(g.sourceWidth);
    DigitsHaveNoSeparator(g.sourceHeight);
    Int16TextHasNoSeparator(g.shift);
    Int16TextHasNoSeparator(g.offset);
    SplitJoin(s, ';');
    assert s[0] != [];
    ParseUnsignedOfDecimal(g.character, UInt16Max);
    ParseUnsignedOfDecimal(g.sourceX, UInt16Max);
    ParseUnsignedOfDecimal(g.sourceY, UInt16Max);
    ParseUnsignedOfDecimal(g.sourceWidth, UInt16Max);
    ParseUnsignedOfDecimal(g.sourceHeight, UInt16Max);
    ParseInt16Text(g.shift);
    ParseInt16Text(g.offset);
  }

  /** The rows of a written font: its header, then one row per glyph. */
  predicate WrittenRows(f: FontFields, rows: seq<Row>) {
    |rows| == |f.glyphs| + 1 && !rows[0].blank && rows[0].name == f.displayName &&
    rows[0].header == HeaderValues(Some(f.emSize), Some(f.bold), Some(f.italic), Some(f.charset),
                                   Some(f.antiAliasing), Some(f.scaleX), Some(f.scaleY)) &&
    forall i :: 1 <= i < |rows| ==>
      !rows[i].blank && rows[i].first == Some(f.glyphs[i - 1].character) &&
      rows[i].glyph == Some(f.glyphs[i - 1])
  }

  lemma RowsOfWrittenFont(f: FontFields)
    requires Writable(f)
    ensures WrittenRows(f, Rows(WriteFont(f)))
  {
    var rows := Rows(WriteFont(f));
    HeaderRowOfFields(f);
    forall i | 1 <= i < |rows|
      ensures !rows[i].blank && rows[i].first == Some(f.glyphs[i - 1].character) &&
              rows[i].glyph == Some(f.glyphs[i - 1])
    {
      GlyphRowOfFields(f.glyphs[i - 1]);
    }
  }

  /** Glyph rows read after the first append their glyphs, in order, and the
      last one ends the range. */
  lemma {:induction false} ReadGlyphRows(r: Reader, rows: seq<Row>, gs: seq<Glyph>)
    requires r.head == 2 && |rows| == |gs| && gs != []
    requires forall i :: 0 <= i < |rows| ==> !rows[i].blank && rows[i].glyph == Some(gs[i])
    ensures ReadRows(r, rows) ==
      r.(font := r.font.(glyphs := r.font.glyphs + gs, rangeEnd := gs[|gs| - 1].character))
    decreases |gs|
  {
    var last := |gs| - 1;
    if last == 0 {
      assert rows[..0] == [];
      assert r.font.glyphs + gs == r.font.glyphs + [gs[0]];
    } else {
      ReadGlyphRows(r, rows[..last], gs[..last]);
      assert r.font.glyphs + gs[..last] + [gs[last]] == r.font.glyphs + gs;
    }
  }

  /** A header row that parses in full, then the first glyph row. */
  lemma ReadFirstRows(start: Reader, header: Row, first: Row, g: Glyph)
    requires start.head == 0 && !start.hadError && start.font.glyphs == []
    requires !header.blank && HeaderParses(header.header)
    requires !first.blank && first.first == Some(g.character) && first.glyph == Some(g)
    ensures ReadRows(start, [header, first]) ==
      Reader(HeaderRow(start.font, header).0.(rangeStart := g.character, glyphs := [g],
                                              rangeEnd := g.character), 2, false)
  {
    HeaderRowMeaning(start.font, header);
    var f := HeaderRow(start.font, header).0;
    assert [header, first][..1] == [header];
    assert [header][..0] == [];
    assert ReadRows(start, [header]) == Reader(f, 1, false);
    assert f.glyphs + [g] == [g];
  }

  /** A header row that parses in full, then glyph rows, read from the start of
      a file: the header fields are set, the first glyph starts the range, and
      every glyph is appended in order without an error. */
  lemma ReadHeaderThenGlyphs(start: Reader, rows: seq<Row>, gs: seq<Glyph>)
    requires start.head == 0 && !start.hadError && start.font.glyphs == []
    requires |rows| == |gs| + 1 && gs != []
    requires !rows[0].blank && HeaderParses(rows[0].header)
    requires forall i :: 1 <= i < |rows| ==>
      !rows[i].blank && rows[i].first == Some(gs[i - 1].character) && rows[i].glyph == Some(gs[i - 1])
    ensures ReadRows(start, rows) ==
      Reader(HeaderRow(start.font, rows[0]).0.(rangeStart := gs[0].character, glyphs := gs,
                                              rangeEnd := gs[|gs| - 1].character), 2, false)
  {
    var header := HeaderRow(start.font, rows[0]).0;
    var afterFirst := Reader(header.(rangeStart := gs[0].character, glyphs := [gs[0]], rangeEnd := gs[0].character),
                             2, false);
    assert ReadRows(start, rows[..2]) == afterFirst by {
      FirstTwo(rows);
      ReadFirstRows(start, rows[0], rows[1], gs[0]);
    }
    assert ReadRows(start, rows) == ReadRows(afterFirst, rows[2..]) by {
      ReadRowsAppend(start, rows[..2], rows[2..]);
      SplitAt(rows, 2);
    }
    var want := Reader(header.(rangeStart := gs[0].character, glyphs := gs, rangeEnd := gs[|gs| - 1].character),
                       2, false);
    if |gs| == 1 {
      assert rows[2..] == [];
      assert gs == [gs[0]];
      assert afterFirst == want;
    } else {
      LaterGlyphRows(afterFirst, rows, gs);
      assert afterFirst.font.glyphs + gs[1..] == gs;
    }
  }

  /** The glyph rows after the first one, as they sit in a file that starts
      with a header row. */
  lemma LaterGlyphRows(r: Reader, rows: seq<Row>, gs: seq<Glyph>)
    requires r.head == 2 && |rows| == |gs| + 1 && |gs| >= 2
    requires forall i :: 1 <= i < |rows| ==> !rows[i].blank && rows[i].glyph == Some(gs[i - 1])
    ensures ReadRows(r, rows[2..]) ==
      r.(font := r.font.(glyphs := r.font.glyphs + gs[1..], rangeEnd := gs[|gs| - 1].character))
  {
    var more, moreGlyphs := rows[2..], gs[1..];
    forall i | 0 <= i < |more|
      ensures !more[i].blank && more[i].glyph == Some(moreGlyphs[i])
    {
      assert more[i] == rows[i + 2] && moreGlyphs[i] == gs[i + 1];
    }
    ReadGlyphRows(r, more, moreGlyphs);
  }

  /** The rows of a written font read back give exactly that font, without an
      error, whatever the font held before. */
  lemma ReadWrittenRows(f: FontFields, before: FontFields, rows: seq<Row>)
    requires Writable(f) && WrittenRows(f, rows)
    ensures ReadRows(Reader(before.(glyphs := []), 0, false), rows) == Reader(f, 2, false)
  {
    var start := Reader(before.(glyphs := []), 0, false);
    HeaderRowMeaning(start.font, rows[0]);
    var header := HeaderRow(start.font, rows[0]).0;
    assert HeaderParses(rows[0].header);
    assert header.(rangeStart := f.rangeStart, glyphs := f.glyphs, rangeEnd := f.rangeEnd) == f;
    ReadHeaderThenGlyphs(start, rows, f.glyphs);
  }

  /** Reading the file written from a font gives back exactly that font, without
      an error, whatever the font held before. */
  lemma ReadWrittenFont(f: FontFields, before: FontFields)
    requires Writable(f)
    ensures Read(WriteFont(f), before) == Reader(f, 2, false)
  {
    RowsOfWrittenFont(f);
    ReadWrittenRows(f, before, Rows(WriteFont(f)));
  }

  // ---------------------------------------------------------------------------
  // Fonts in the game data

  class Font {
    const Name: string
    var DisplayName: string
    var EmSize: nat
    var Bold: bool
    var Italic: bool
    var Charset: nat
    var AntiAliasing: nat
    var ScaleX: nat
    var ScaleY: nat
    var RangeStart: nat
    var RangeEnd: nat
    var Glyphs: seq<Glyph>
    var Texture: Option<PageItem>

    function Fields(): FontFields
      reads this
    {
      FontFields(DisplayName, EmSize, Bold, Italic, Charset, AntiAliasing, ScaleX, ScaleY,
                 RangeStart, RangeEnd, Glyphs)
    }

    constructor (name: string)
      ensures Name == name && Fields() == NewFontFields && Texture == None
    {
      Name := name;
      DisplayName := "";
      EmSize, Bold, Italic, Charset, AntiAliasing, ScaleX, ScaleY := 0, false, false, 0, 0, 0, 0;
      RangeStart, RangeEnd, Glyphs := 0, 0, [];
      Texture := None;
    }

    /** The header row assigned field by field, stopping at the first failure. */
    method ReadHeader(s: seq<string>) returns (ok: bool)
      requires |s| >= 1
      modifies this
      ensures (Fields(), ok) == HeaderRow(old(Fields()), ParseRow(s))
      ensures Texture == old(Texture)
    {
      ghost var h := ParseRow(s).header;
      ghost var row := HeaderRow(Fields(), ParseRow(s));
      var f := Fields().(displayName := RemoveQuotes(s[0]));
      assert row == HeaderFrom(f, h, 1);
      ok := false;
      var emSize := UInt16At(s, 1);
      if emSize.Some? {
        f := f.(emSize := emSize.value);
        assert row == HeaderFrom(f, h, 2);
        var bold := BoolAt(s, 2);
        if bold.Some? {
          f := f.(bold := bold.value);
          assert row == HeaderFrom(f, h, 3);
          var italic := BoolAt(s, 3);
          if italic.Some? {
            f := f.(italic := italic.value);
            assert row == HeaderFrom(f, h, 4);
            var charset := ByteAt(s, 4);
            if charset.Some? {
              f := f.(charset := charset.value);
              assert row == HeaderFrom(f, h, 5);
              var antiAliasing := ByteAt(s, 5);
              if antiAliasing.Some? {
                f := f.(antiAliasing := antiAliasing.value);
                assert row == HeaderFrom(f, h, 6);
                var scaleX := UInt16At(s, 6);
                if scaleX.Some? {
                  f := f.(scaleX := scaleX.value);
                  assert row == HeaderFrom(f, h, 7);
                  var scaleY := UInt16At(s, 7);
                  if scaleY.Some? {
                    f := f.(scaleY := scaleY.value);
                    assert row == HeaderFrom(f, h, 8);
                    ok := true;
                  }
                }
              }
            }
          }
        }
      }
      SetFields(f);
    }

    /** The font's fields set to `f`. */
    method SetFields(f: FontFields)
      modifies this
      ensures Fields() == f && Texture == old(Texture)
    {
      DisplayName, EmSize, Bold, Italic := f.displayName, f.emSize, f.bold, f.italic;
      Charset, AntiAliasing, ScaleX, ScaleY := f.charset, f.antiAliasing, f.scaleX, f.scaleY;
      RangeStart, RangeEnd, Glyphs := f.rangeStart, f.rangeEnd, f.glyphs;
    }

    /** One line of the glyph file, split on ';'. An exception in the row is a
        failure that stops the row and is remembered in the returned flag. The
        row after the header sets the range start and is then read as a glyph. */
    method ReadRow(s: seq<string>, head: nat, hadError: bool) returns (head': nat, hadError': bool)
      modifies this
      ensures Reader(Fields(), head', hadError') == Step(Reader(old(Fields()), head, hadError), ParseRow(s))
      ensures Texture == old(Texture)
    {
      head', hadError' := head, hadError;
      if Blank(s) {
        return;
      }
      if head == 1 {
        head', hadError' := ReadRangeStart(s, hadError);
      } else if head == 0 {
        var headerOk := ReadHeader(s);
        if headerOk {
          head' := 1;
        } else {
          hadError' := true;
        }
      } else {
        hadError' := ReadGlyph(s, head, hadError);
      }
    }

    /** The row after the header: its first field starts the range, then the row
        is a glyph. */
    method ReadRangeStart(s: seq<string>, hadError: bool) returns (head': nat, hadError': bool)
      requires !Blank(s)
      modifies this
      ensures Reader(Fields(), head', hadError') == Step(Reader(old(Fields()), 1, hadError), ParseRow(s))
      ensures Texture == old(Texture)
    {
      var rangeStart := UInt16At(s, 0);
      if rangeStart.None? {
        return 1, true;
      }
      RangeStart := rangeStart.value;
      head' := 2;
      hadError' := ReadGlyph(s, 2, hadError);
    }

    /** A glyph row: the glyph is appended and ends the range, or the row fails. */
    method ReadGlyph(s: seq<string>, head: nat, hadError: bool) returns (hadError': bool)
      modifies this
      ensures Reader(Fields(), head, hadError') == GlyphStep(Reader(old(Fields()), head, hadError), ParseRow(s))
      ensures Texture == old(Texture)
    {
      var glyph := GlyphRow(s);
      hadError' := hadError;
      if glyph.None? {
        hadError' := true;
      } else {
        Glyphs := Glyphs + [glyph.value];
        RangeEnd := glyph.value.character;
      }
    }

    /** Reads the font's glyph file. A missing file fails before anything changes;
        otherwise the fields end as the reader leaves them, even when some row
        failed, and the update succeeds when no row failed. */
    method Update(file: Option<seq<string>>) returns (ok: bool)
      modifies this
      ensures file.None? ==> !ok && Fields() == old(Fields())
      ensures file.Some? ==> Fields() == Read(file.value, old(Fields())).font &&
                             ok == !Read(file.value, old(Fields())).hadError
      ensures Texture == old(Texture)
    {
      if file.None? {
        return false;
      }
      var lines := file.value;
      Glyphs := [];
      ghost var start := Reader(Fields(), 0, false);
      ghost var rows := Rows(lines);
      var head := 0;
      var hadError := false;
      var i := 0;
      while i < |lines|
        invariant 0 <= i <= |lines|
        invariant Reader(Fields(), head, hadError) == ReadRows(start, rows[..i])
        invariant Texture == old(Texture)
      {
        ReadRowsPrefix(start, rows, i);
        head, hadError := ReadRow(Split(lines[i], ';'), head, hadError);
        i := i + 1;
      }
      assert rows[..|lines|] == rows;
      return !hadError;
    }
  }

  /** The page item of a glyph sheet: its bounds as source, target and bounding
      size, with no offset. */
  function FontPageItem(n: AtlasLayout.Node, page: nat): (item: PageItem)
    ensures (0 <= n.bounds.x && 0 <= n.bounds.y && NonNegative(n.bounds) &&
             n.bounds.x + n.bounds.width < 0x1_0000 && n.bounds.y + n.bounds.height < 0x1_0000) ==>
      item.sourceX == n.bounds.x && item.sourceY == n.bounds.y &&
      item.sourceWidth == item.targetWidth == item.boundingWidth == n.bounds.width &&
      item.sourceHeight == item.targetHeight == item.boundingHeight == n.bounds.height
    ensures item.targetX == 0 && item.targetY == 0 && item.page == page
  {
    PageItem(UShort(n.bounds.x), UShort(n.bounds.y), UShort(n.bounds.width), UShort(n.bounds.height),
             0, 0, UShort(n.bounds.width), UShort(n.bounds.height),
             UShort(n.bounds.width), UShort(n.bounds.height), page)
  }

  function GlyphFile(files: map<string, seq<string>>, name: string): Option<seq<string>> {
    if name in files then Some(files[name]) else None
  }

  /** The fonts of the game data and the page items the importer adds. */
  class FontData {
    var PageItems: seq<PageItem>
    var Fonts: map<string, Font>

    constructor (fonts: map<string, Font>)
      ensures Fonts == fonts && PageItems == []
    {
      Fonts := fonts;
      PageItems := [];
    }

    /** The font a glyph sheet of font `name` updates in place, if one exists. */
    function Touched(name: string): set<Font>
      reads this
    {
      if name in Fonts then {Fonts[name]} else {}
    }

    /** One placed glyph sheet. A new font is added, with the sheet as texture,
        only when its glyph file reads without error; an existing font is updated
        in place and keeps what the reader set even when the file had an error,
        but gets the new texture only on success. */
    method ImportNode(n: AtlasLayout.Node, page: nat, files: map<string, seq<string>>) returns (ok: bool)
      requires n.texture.Some?
      modifies this, Touched(FileStem(n.texture.value.source))
      ensures PageItems == old(PageItems) + [FontPageItem(n, page)]
      ensures forall f :: f in Fonts.Values ==> f in old(Fonts.Values) || fresh(f)
      ensures var name := FileStem(n.texture.value.source);
        forall f :: f in old(Fonts.Values) && f !in old(Touched(name)) ==> unchanged(f)
      ensures var name := FileStem(n.texture.value.source);
        var file := GlyphFile(files, name);
        name !in old(Fonts) ==>
          (ok <==> file.Some? && !Read(file.value, NewFontFields).hadError) &&
          (!ok ==> Fonts == old(Fonts)) &&
          (ok ==> Fonts.Keys == old(Fonts).Keys + {name} && fresh(Fonts[name]) &&
                  (forall other :: other in old(Fonts) ==> Fonts[other] == old(Fonts[other])) &&
                  Fonts[name].Name == name &&
                  Fonts[name].Fields() == Read(file.value, NewFontFields).font &&
                  Fonts[name].Texture == Some(FontPageItem(n, page)))
      ensures var name := FileStem(n.texture.value.source);
        var file := GlyphFile(files, name);
        name in old(Fonts) ==>
          Fonts == old(Fonts) &&
          (ok <==> file.Some? && !Read(file.value, old(Fonts[name].Fields())).hadError) &&
          Fonts[name].Fields() == (if file.Some? then Read(file.value, old(Fonts[name].Fields())).font
                                   else old(Fonts[name].Fields())) &&
          Fonts[name].Texture == if ok then Some(FontPageItem(n, page)) else old(Fonts[name].Texture)
    {
      var item := FontPageItem(n, page);
      PageItems := PageItems + [item];
      var spriteName := FileStem(n.texture.value.source);
      var file := GlyphFile(files, spriteName);
      if spriteName !in Fonts {
        var newFont := new Font(spriteName);
        ok := newFont.Update(file);
        if ok {
          newFont.Texture := Some(item);
          Fonts := Fonts[spriteName := newFont];
        }
        return;
      }
      var font := Fonts[spriteName];
      ok := font.Update(file);
      if ok {
        font.Texture := Some(item);
      }
    }
  }
}
