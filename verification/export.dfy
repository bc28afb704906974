/** The text `handleExportDescriptions` of App.tsx builds: a header line,
    then one line per Control in number order with the eight description
    columns, each field in double quotes with inner quotes doubled. A reader
    of the format is given alongside, and reading an export back yields the
    descriptions. The data-URL prefix and the download link are not part
    of this model. */
module DescriptionExport {
  import opened Wrappers
  import opened CourseModel
  import opened ControlOrder

  const Header: string := "A_Num,B_Code,C_Feature,D_Detail,E_Dims,F_Location,G_Combo,H_Special"

  /** `replace(/"/g, '""')`. */
  function Escape(s: string): (r: string)
    ensures |r| >= |s|
    ensures '"' !in s ==> r == s
  {
    if |s| == 0 then ""
    else (if s[0] == '"' then "\"\"" else [s[0]]) + Escape(s[1..])
  }

  /** A field as written: a missing value is written as empty. */
  function QuoteField(field: Option<string>): (r: string)
    ensures |r| >= 2 && r[0] == '"' && r[|r| - 1] == '"'
  {
    "\"" + Escape(field.GetOr("")) + "\""
  }

  /** The fields of a line, joined with commas. */
  function RowText(values: seq<string>): string {
    if |values| == 0 then ""
    else if |values| == 1 then QuoteField(Some(values[0]))
    else QuoteField(Some(values[0])) + "," + RowText(values[1..])
  }

  /** Lines joined with newlines. */
  function Records(rows: seq<seq<string>>): string {
    if |rows| == 0 then ""
    else if |rows| == 1 then RowText(rows[0])
    else RowText(rows[0]) + "\n" + Records(rows[1..])
  }

  /** The eight columns of a description, A to H. */
  function DescriptionValues(d: ControlDescription): (r: seq<string>)
    ensures |r| == 8
    ensures r[0] == d.aNumber && r[7] == d.hSpecialInstructions
  {
    [d.aNumber, d.bCode, d.cWhichFeature, d.dFeatureDetail, d.eDimensions, d.fLocation,
     d.gBetweenObjects, d.hSpecialInstructions]
  }

  /** The Controls in the order the export lists them. */
  function ExportedControls(els: seq<CourseElement>): (cs: seq<CourseElement>)
    ensures |cs| == |ControlsOf(els)|
    ensures forall c :: c in cs <==> c in ControlsOf(els)
    ensures forall i, j | 0 <= i < j < |cs| :: cs[i].Control? && cs[j].Control? && cs[i].number <= cs[j].number
  {
    SortKeepsElements(ControlsOf(els));
    SortByNumber(ControlsOf(els))
  }

  function DescriptionRows(cs: seq<CourseElement>): (rows: seq<seq<string>>)
    requires forall c | c in cs :: c.Control?
    ensures |rows| == |cs|
    ensures forall i | 0 <= i < |cs| :: rows[i] == DescriptionValues(cs[i].description)
  {
    seq(|cs|, i requires 0 <= i < |cs| => DescriptionValues(cs[i].description))
  }

  /** The exported text, or nothing when there is no Control (the program
      alerts instead). */
  function ExportDescriptions(els: seq<CourseElement>): (r: Option<string>)
    ensures r.None? <==> |ControlsOf(els)| == 0
  {
    var cs := ExportedControls(els);
    if |cs| == 0 then None
    else Some(Header + "\n" + Records(DescriptionRows(cs)))
  }

  // ----- reading the format back ---------------------------------------------

  /** The rest of a quoted field after its opening quote: a doubled quote
      stands for one quote, a single quote closes the field. Gives the value
      and the text after the closing quote. */
  function ParseQuotedBody(t: string): (r: Option<(string, string)>)
    ensures r.Some? ==> |r.value.1| < |t|
  {
    if |t| == 0 then None
    else if t[0] == '"' then
      if |t| >= 2 && t[1] == '"' then
        match ParseQuotedBody(t[2..])
        case None => None
        case Some((v, rest)) => Some(("\"" + v, rest))
      else Some(("", t[1..]))
    else
      match ParseQuotedBody(t[1..])
      case None => None
      case Some((v, rest)) => Some(([t[0]] + v, rest))
  }

  function ParseField(t: string): (r: Option<(string, string)>)
    ensures r.Some? ==> |r.value.1| < |t|
  {
    if |t| > 0 && t[0] == '"' then ParseQuotedBody(t[1..]) else None
  }

  /** Comma-separated quoted fields, up to the first character after a field
      that is not a comma. */
  function ParseRow(t: string): (r: Option<(seq<string>, string)>)
    ensures r.Some? ==> |r.value.1| < |t|
    decreases |t|
  {
    match ParseField(t)
    case None => None
    case Some((v, rest)) =>
      if |rest| > 0 && rest[0] == ',' then
        match ParseRow(rest[1..])
        case None => None
        case Some((vs, rest2)) => Some(([v] + vs, rest2))
      else Some(([v], rest))
  }

  /** Newline-separated rows filling the whole text. */
  function ParseRecords(t: string): (r: Option<seq<seq<string>>>)
    decreases |t|
  {
    match ParseRow(t)
    case None => None
    case Some((vs, rest)) =>
      if |rest| == 0 then Some([vs])
      else if rest[0] == '\n' then
        match ParseRecords(rest[1..])
        case None => None
        case Some(more) => Some([vs] + more)
      else None
  }

  lemma {:induction false} QuotedBodyRoundTrip(s: string, rest: string)
    requires |rest| == 0 || rest[0] != '"'
    ensures ParseQuotedBody(Escape(s) + "\"" + rest) == Some((s, rest))
  {
    var t := Escape(s) + "\"" + rest;
    if |s| == 0 {
      assert t == "\"" + rest;
      assert t[1..] == rest;
    } else if s[0] == '"' {
      assert t == "\"\"" + (Escape(s[1..]) + "\"" + rest);
      assert t[2..] == Escape(s[1..]) + "\"" + rest;
      QuotedBodyRoundTrip(s[1..], rest);
      assert s == "\"" + s[1..];
    } else {
      assert t == [s[0]] + (Escape(s[1..]) + "\"" + rest);
      assert t[1..] == Escape(s[1..]) + "\"" + rest;
      QuotedBodyRoundTrip(s[1..], rest);
      assert s == [s[0]] + s[1..];
    }
  }

  /** A written field reads back as its value. */
  lemma FieldRoundTrip(v: string, rest: string)
    requires |rest| == 0 || rest[0] != '"'
    ensures ParseField(QuoteField(Some(v)) + rest) == Some((v, rest))
  {
    var t := QuoteField(Some(v)) + rest;
    assert t[1..] == Escape(v) + "\"" + rest;
    QuotedBodyRoundTrip(v, rest);
  }

  /** A written line reads back as its values. */
  lemma {:induction false} RowRoundTrip(values: seq<string>, rest: string)
    requires |values| > 0
    requires |rest| == 0 || (rest[0] != '"' && rest[0] != ',')
    ensures ParseRow(RowText(values) + rest) == Some((values, rest))
  {
    var t := RowText(values) + rest;
    if |values| == 1 {
      FieldRoundTrip(values[0], rest);
      assert values == [values[0]];
    } else {
      var tail := "," + RowText(values[1..]) + rest;
      assert t == QuoteField(Some(values[0])) + tail;
      FieldRoundTrip(values[0], tail);
      assert tail[1..] == RowText(values[1..]) + rest;
      RowRoundTrip(values[1..], rest);
      assert values == [values[0]] + values[1..];
    }
  }

  /** Written lines read back as the rows. */
  lemma {:induction false} RecordsRoundTrip(rows: seq<seq<string>>)
    requires |rows| > 0 && forall i | 0 <= i < |rows| :: |rows[i]| > 0
    ensures ParseRecords(Records(rows)) == Some(rows)
  {
    if |rows| == 1 {
      RowRoundTrip(rows[0], "");
      assert RowText(rows[0]) + "" == RowText(rows[0]);
      assert rows == [rows[0]];
    } else {
      var tail := "\n" + Records(rows[1..]);
      assert Records(rows) == RowText(rows[0]) + tail;
      RowRoundTrip(rows[0], tail);
      assert tail[1..] == Records(rows[1..]);
      RecordsRoundTrip(rows[1..]);
      assert rows == [rows[0]] + rows[1..];
    }
  }

  /** An export is the header line followed by text that reads back as the
      descriptions of the Controls, in number order. */
  lemma ExportReadsBack(els: seq<CourseElement>)
    requires |ControlsOf(els)| > 0
    ensures var r := ExportDescriptions(els);
      && r.Some?
      && |r.value| > |Header| + 1
      && r.value[..|Header| + 1] == Header + "\n"
      && ParseRecords(r.value[|Header| + 1..]) == Some(DescriptionRows(ExportedControls(els)))
  {
    var rows := DescriptionRows(ExportedControls(els));
    var body := Records(rows);
    RecordsRoundTrip(rows);
    var text := Header + "\n" + body;
    assert text[..|Header| + 1] == Header + "\n";
    assert text[|Header| + 1..] == body;
    assert |body| > 0 by {
      RowTextNonEmpty(rows[0]);
      RecordsStart(rows);
    }
  }

  lemma RowTextNonEmpty(values: seq<string>)
    requires |values| > 0
    ensures |RowText(values)| >= 2
  {
  }

  lemma RecordsStart(rows: seq<seq<string>>)
    requires |rows| > 0
    ensures |Records(rows)| >= |RowText(rows[0])|
  {
  }

  /** Escaping leaves a text with no quote unchanged and doubles each quote. */
  lemma EscapeExample()
    ensures Escape("a\"b") == "a\"\"b"
    ensures QuoteField(None) == "\"\""
  {
    assert "a\"b"[1..] == "\"b" && "\"b"[1..] == "b" && "b"[1..] == "";
  }
}
