/** The generator's printing loop, its round trip through the reader, and the size of the preallocated array. Numbers
    are the texts they print as. */
module JsonPrinter {
  import opened Options
  import opened JsonScan
  import opened JsonRows
  import opened JsonRoundTrip

  const OPENING := "{\"pairs\":[\n"
  const CLOSING := "\n]}\n"

  function PrintedRow(t: Row<string>): string {
    "{" + "\"x0\":" + t.x0 + "," + " \"y0\":" + t.y0 + "," + " \"x1\":" + t.x1 + "," + " \"y1\":" + t.y1 + "}"
  }

  /** Rows on their own lines, with a comma before each line but the first of the file. */
  function Lines(rows: seq<Row<string>>, first: bool, line: Row<string> -> string): string {
    if rows == [] then "" else (if first then "" else ",\n") + line(rows[0]) + Lines(rows[1..], false, line)
  }

  function Printed(rows: seq<Row<string>>): string {
    OPENING + Lines(rows, true, PrintedRow) + CLOSING
  }

  lemma NextLine(json: string, rows: seq<Row<string>>, i: nat, first: bool, line: Row<string> -> string)
    requires i < |rows|
    ensures json + (if first then "" else ",\n") + line(rows[i]) + Lines(rows[i + 1..], false, line)
            == json + Lines(rows[i..], first, line)
  {
    assert rows[i..][0] == rows[i] && rows[i..][1..] == rows[i + 1..];
  }

  /** The printing loop. */
  method Generate(rows: seq<Row<string>>) returns (json: string)
    ensures json == Printed(rows)
  {
    json := OPENING;
    var firstLine := true;
    for i := 0 to |rows|
      invariant json + Lines(rows[i..], firstLine, PrintedRow) == OPENING + Lines(rows, true, PrintedRow)
    {
      NextLine(json, rows, i, firstLine, PrintedRow);
      json := json + if !firstLine then ",\n" else "";
      json := json + PrintedRow(rows[i]);
      firstLine := false;
    }
    json := json + CLOSING;
  }

  // ----- printed files belong to the grammar -----

  const SLOTS := [Slot("", X0, ""), Slot(" ", Y0, ""), Slot(" ", X1, ""), Slot(" ", Y1, "")]
  const HEADER := Header("", "", "", "")

  function Layouts(slots: seq<Slot>, n: nat, first: bool): (r: seq<RowLayout>)
    ensures |r| == n
  {
    if n == 0 then [] else [RowLayout(if first then "\n" else ",\n", slots)] + Layouts(slots, n - 1, false)
  }

  lemma ItemPrinted(t: Row<string>, s: Slot, count: nat)
    ensures s == SLOTS[0] && count == 0 ==> ItemText(t, s, count) == "\"x0\":" + t.x0 + ","
    ensures s == SLOTS[1] && count == 1 ==> ItemText(t, s, count) == " \"y0\":" + t.y0 + ","
    ensures s == SLOTS[2] && count == 2 ==> ItemText(t, s, count) == " \"x1\":" + t.x1 + ","
    ensures s == SLOTS[3] && count == 3 ==> ItemText(t, s, count) == " \"y1\":" + t.y1 + "}"
  {
  }

  lemma RowPrinted(t: Row<string>)
    ensures ItemsText(t, SLOTS, 0)
            == ItemText(t, SLOTS[0], 0)
               + (ItemText(t, SLOTS[1], 1) + (ItemText(t, SLOTS[2], 2) + ItemText(t, SLOTS[3], 3)))
  {
    assert SLOTS[1..][0] == SLOTS[1] && SLOTS[2..][0] == SLOTS[2] && SLOTS[3..][0] == SLOTS[3];
    assert SLOTS[1..][1..] == SLOTS[2..] && SLOTS[2..][1..] == SLOTS[3..] && SLOTS[3..][1..] == [];
    assert ItemsText(t, SLOTS[3..], 3) == ItemText(t, SLOTS[3], 3) + "";
    assert ItemsText(t, SLOTS[2..], 2) == ItemText(t, SLOTS[2], 2) + ItemsText(t, SLOTS[3..], 3);
    assert ItemsText(t, SLOTS[1..], 1) == ItemText(t, SLOTS[1], 1) + ItemsText(t, SLOTS[2..], 2);
  }

  lemma NextItem(done: string, name: string, value: string, end: string)
    ensures done + name + value + end == done + (name + value + end)
  {
  }

  lemma FromTheRight(lead: string, brace: string, a: string, b: string, c: string, d: string)
    ensures lead + (brace + a + b + c + d) == lead + brace + (a + (b + (c + d)))
  {
  }

  lemma PrintedRowText(t: Row<string>, lead: string)
    ensures lead + PrintedRow(t) == RowText(t, RowLayout(lead, SLOTS))
  {
    RowPrinted(t);
    ItemPrinted(t, SLOTS[0], 0);
    ItemPrinted(t, SLOTS[1], 1);
    ItemPrinted(t, SLOTS[2], 2);
    ItemPrinted(t, SLOTS[3], 3);
    var a, b := ItemText(t, SLOTS[0], 0), ItemText(t, SLOTS[1], 1);
    var c, d := ItemText(t, SLOTS[2], 2), ItemText(t, SLOTS[3], 3);
    NextItem("{", "\"x0\":", t.x0, ",");
    NextItem("{" + a, " \"y0\":", t.y0, ",");
    NextItem("{" + a + b, " \"x1\":", t.x1, ",");
    NextItem("{" + a + b + c, " \"y1\":", t.y1, "}");
    FromTheRight(lead, "{", a, b, c, d);
  }

  lemma Regroup(a: string, b: string, c: string, d: string)
    ensures a + b + c + d == a + ((b + c) + d)
  {
  }

  ghost predicate PrintsRows(line: Row<string> -> string, slots: seq<Slot>) {
    forall t, lead {:trigger RowText(t, RowLayout(lead, slots))} :: RowText(t, RowLayout(lead, slots)) == lead + line(t)
  }

  lemma LinesSplit(rows: seq<Row<string>>, line: Row<string> -> string, slots: seq<Slot>)
    requires PrintsRows(line, slots) && rows != []
    ensures Lines(rows, false, line) == RowText(rows[0], RowLayout(",\n", slots)) + Lines(rows[1..], false, line)
  {
  }

  lemma LayoutsSplit(slots: seq<Slot>, n: nat, first: bool)
    requires n > 0
    ensures Layouts(slots, n, first)[0] == RowLayout(if first then "\n" else ",\n", slots)
    ensures Layouts(slots, n, first)[1..] == Layouts(slots, n - 1, false)
  {
  }

  lemma {:induction false} LinesText(rows: seq<Row<string>>, line: Row<string> -> string, slots: seq<Slot>)
    requires PrintsRows(line, slots)
    ensures Lines(rows, false, line) == RowsText(rows, Layouts(slots, |rows|, false))
    decreases |rows|
  {
    if rows == [] {
    } else {
      LinesText(rows[1..], line, slots);
      LinesSplit(rows, line, slots);
      LayoutsSplit(slots, |rows|, false);
    }
  }

  lemma FirstLine(line: string, rest: string)
    ensures "\n" + ("" + line + rest) == "\n" + line + rest
  {
  }

  lemma AllLinesText(rows: seq<Row<string>>, line: Row<string> -> string, slots: seq<Slot>)
    requires PrintsRows(line, slots) && rows != []
    ensures "\n" + Lines(rows, true, line) == RowsText(rows, Layouts(slots, |rows|, true))
  {
    LinesText(rows[1..], line, slots);
    LayoutsSplit(slots, |rows|, true);
    FirstLine(line(rows[0]), Lines(rows[1..], false, line));
  }

  lemma HeaderPrinted()
    ensures HeaderText(HEADER) + "\n" == OPENING
  {
  }

  lemma PrintedIsFile(rows: seq<Row<string>>)
    requires rows != []
    ensures Printed(rows) == HeaderText(HEADER) + (RowsText(rows, Layouts(SLOTS, |rows|, true)) + CLOSING)
  {
    forall t, lead
      ensures RowText(t, RowLayout(lead, SLOTS)) == lead + PrintedRow(t)
    {
      PrintedRowText(t, lead);
    }
    AllLinesText(rows, PrintedRow, SLOTS);
    HeaderPrinted();
    Regroup(HeaderText(HEADER), "\n", Lines(rows, true, PrintedRow), CLOSING);
  }

  ghost predicate AllDenote<T>(rows: seq<Row<string>>, values: seq<Row<T>>, number: string -> Option<T>)
    decreases |rows|
  {
    |rows| == |values|
    && (rows != [] ==> RowDenotes(rows[0], values[0], number) && AllDenote(rows[1..], values[1..], number))
  }

  lemma PrintedLayoutIsGood(lead: string)
    requires Without(lead, '{')
    ensures GoodLayout(RowLayout(lead, SLOTS)) && AllFields(SLOTS)
  {
  }

  lemma {:induction false} LayoutsAreGood<T>(rows: seq<Row<string>>, values: seq<Row<T>>, first: bool,
                                             number: string -> Option<T>)
    requires AllDenote(rows, values, number)
    ensures GoodRows(rows, Layouts(SLOTS, |rows|, first), values, number)
    decreases |rows|
  {
    if rows == [] {
    } else {
      PrintedLayoutIsGood(if first then "\n" else ",\n");
      LayoutsAreGood(rows[1..], values[1..], false, number);
      assert Layouts(SLOTS, |rows|, first)[1..] == Layouts(SLOTS, |rows| - 1, false);
    }
  }

  lemma HeaderAndClosingAreGood()
    ensures GoodHeader(HEADER) && Without(CLOSING, '{')
  {
  }

  lemma LayoutsRoundTrip<T(!new)>(h: Header, rows: seq<Row<string>>, closing: string, values: seq<Row<T>>, last: Row<T>,
                            junk: nat -> Flags, number: string -> Option<T>)
    requires GoodHeader(h) && Without(closing, '{') && AllDenote(rows, values, number)
    ensures Parse(HeaderText(h) + (RowsText(rows, Layouts(SLOTS, |rows|, true)) + closing), last, junk, number, None)
            == Done(values)
  {
    LayoutsAreGood(rows, values, true, number);
    FileRoundTrip(h, rows, Layouts(SLOTS, |rows|, true), closing, values, last, junk, number);
  }

  /** Reading a generated file gives back its rows. */
  lemma PrintedRoundTrip<T(!new)>(rows: seq<Row<string>>, values: seq<Row<T>>, last: Row<T>, junk: nat -> Flags,
                            number: string -> Option<T>)
    requires rows != [] && AllDenote(rows, values, number)
    ensures Parse(Printed(rows), last, junk, number, None) == Done(values)
  {
    PrintedIsFile(rows);
    HeaderAndClosingAreGood();
    LayoutsRoundTrip(HEADER, rows, CLOSING, values, last, junk, number);
  }

  // ----- the preallocated array -----

  const JSON_OVERHEAD_SIZE := 14
  const JSON_MIN_ROW_SIZE := 101

  /** How many rows the reader makes room for, in exact arithmetic; the subtraction wraps. */
  function EstimateTotalEntries(fileSize: nat): nat {
    ((fileSize - JSON_OVERHEAD_SIZE) % 0x1_0000_0000_0000_0000 + JSON_MIN_ROW_SIZE - 1) / JSON_MIN_ROW_SIZE
  }

  /** The characters of all values of a file. */
  function ValueChars(rows: seq<Row<string>>): nat {
    if rows == [] then 0
    else |rows[0].x0| + |rows[0].y0| + |rows[0].x1| + |rows[0].y1| + ValueChars(rows[1..])
  }

  lemma {:induction false} LinesSize(rows: seq<Row<string>>, first: bool)
    ensures |Lines(rows, first, PrintedRow)| == ValueChars(rows) + 30 * |rows| - if first && rows != [] then 2 else 0
    decreases |rows|
  {
    if rows == [] {
    } else {
      LinesSize(rows[1..], false);
    }
  }

  lemma RoomIff(n: nat, chars: nat)
    requires n > 0 && 30 * n + 13 + chars < 0x1_0000_0000_0000_0000
    ensures n <= EstimateTotalEntries(30 * n + 13 + chars) <==> chars >= 71 * n - 99
  {
  }

  /** The preallocated array has room for a generated file exactly when its values are long enough on average. */
  lemma EstimateSufficesIff(rows: seq<Row<string>>)
    requires rows != [] && |Printed(rows)| < 0x1_0000_0000_0000_0000
    ensures |Printed(rows)| == 30 * |rows| + 13 + ValueChars(rows)
    ensures |rows| <= EstimateTotalEntries(|Printed(rows)|) <==> ValueChars(rows) >= 71 * |rows| - 99
  {
    LinesSize(rows, true);
    RoomIff(|rows|, ValueChars(rows));
  }

  predicate LongValues(rows: seq<Row<string>>) {
    forall k :: 0 <= k < |rows| ==> |rows[k].x0| >= 18 && |rows[k].y0| >= 18 && |rows[k].x1| >= 18 && |rows[k].y1| >= 18
  }

  lemma {:induction false} LongValuesChars(rows: seq<Row<string>>)
    requires LongValues(rows)
    ensures ValueChars(rows) >= 72 * |rows|
    decreases |rows|
  {
    if rows == [] {
    } else {
      LongValuesChars(rows[1..]);
    }
  }

  lemma AllDenoteLength<T>(rows: seq<Row<string>>, values: seq<Row<T>>, number: string -> Option<T>)
    requires AllDenote(rows, values, number)
    ensures |rows| == |values|
  {
  }

  /** With values of at least 18 characters (a sign, digit or both, a point and 16 decimals) the estimate suffices, so
      the array mode reads a generated file without ever writing past its array. */
  lemma PreallocationSuffices<T(!new)>(rows: seq<Row<string>>, values: seq<Row<T>>, last: Row<T>, junk: nat -> Flags,
                                 number: string -> Option<T>)
    requires rows != [] && AllDenote(rows, values, number) && LongValues(rows)
    requires |Printed(rows)| < 0x1_0000_0000_0000_0000
    ensures |Printed(rows)| >= 102 * |rows| + 13
    ensures Parse(Printed(rows), last, junk, number, Some(EstimateTotalEntries(|Printed(rows)|))) == Done(values)
  {
    LongValuesChars(rows);
    EstimateSufficesIff(rows);
    PrintedRoundTrip(rows, values, last, junk, number);
    AllDenoteLength(rows, values, number);
    ArrayReadsWhatListReads(Printed(rows), last, junk, number, EstimateTotalEntries(|Printed(rows)|));
  }

  /** On a generated file with shorter values the array mode writes past its array. */
  lemma ShortValuesOverflow<T(!new)>(rows: seq<Row<string>>, values: seq<Row<T>>, last: Row<T>, junk: nat -> Flags,
                               number: string -> Option<T>)
    requires rows != [] && AllDenote(rows, values, number) && ValueChars(rows) < 71 * |rows| - 99
    requires |Printed(rows)| < 0x1_0000_0000_0000_0000
    ensures Parse(Printed(rows), last, junk, number, Some(EstimateTotalEntries(|Printed(rows)|))) == Failed(PastArray)
  {
    EstimateSufficesIff(rows);
    PrintedRoundTrip(rows, values, last, junk, number);
    AllDenoteLength(rows, values, number);
    ArrayReadsWhatListReads(Printed(rows), last, junk, number, EstimateTotalEntries(|Printed(rows)|));
  }
}
