/** The reader's two fixed buffers in numbers: exactly which names and values fit, and that whatever the generator
    prints does. */
module JsonLimits {
  import opened Options
  import opened JsonScan
  import opened JsonRows
  import opened JsonRoundTrip
  import opened JsonPrinter

  // ----- the buffers -----

  /** What the reader makes of a name: at most eight characters are read, and only four names are known. */
  lemma NameLimits(lead: string, name: string, mid: string, rest: string)
    requires Without(lead, '"') && Without(name, '"') && Without(name, '\0') && Without(mid, ':')
    ensures ReadName(lead + ['"'] + (name + ['"'] + (mid + [':'] + rest)))
            == if |name| > 8 then Bad(BufferOverrun)
               else if name == "x0" then Got(X0, rest) else if name == "y0" then Got(Y0, rest)
               else if name == "x1" then Got(X1, rest) else if name == "y1" then Got(Y1, rest)
               else Bad(UnknownItem)
  {
    var afterName := mid + [':'] + rest;
    AfterGap(lead, '"', name + ['"'] + afterName);
    AfterGap(name, '"', afterName);
    if |name| <= 8 {
      ExtractGap(name, '"', afterName, 8);
      CStringOf(name);
      AfterGap(mid, ':', rest);
    }
  }

  /** What the reader makes of a value: 64 characters fill the buffer and leave no room for the NUL, more overrun it.
      The first three values of a row end at a comma, the fourth at a brace. */
  lemma ValueLimits<T>(text: string, count: nat, rest: string, number: string -> Option<T>)
    requires var end := if count < 3 then ',' else '}'; Without(text, end) && Without(text, '\0')
    ensures ReadValue(text + [if count < 3 then ',' else '}'] + rest, count, number)
            == if |text| > 64 then Bad(BufferOverrun)
               else if |text| == 64 then Bad(UnterminatedValue)
               else if number(text).None? then Bad(BadValue)
               else Got(number(text).value, rest)
  {
    AfterGap(text, Terminator(count), rest);
    if |text| <= 64 {
      ExtractGap(text, Terminator(count), rest, 64);
      CStringOf(text);
    }
  }

  /** The last value of a file may end with the file. */
  lemma ValueAtEnd<T>(text: string, count: nat, number: string -> Option<T>)
    requires Without(text, if count < 3 then ',' else '}') && Without(text, '\0')
    ensures ReadValue(text, count, number)
            == if |text| > 64 then Bad(BufferOverrun)
               else if |text| == 64 then Bad(UnterminatedValue)
               else if number(text).None? then Bad(BadValue)
               else Got(number(text).value, "")
  {
    assert IndexOf(text, Terminator(count)) == |text|;
    CStringOf(text);
    assert text[..|text|] == text;
  }

  /** A NUL inside a value that fits hides the rest of it. */
  lemma ValueWithNul<T>(seen: string, hidden: string, count: nat, rest: string, number: string -> Option<T>)
    requires Without(seen, '\0') && |seen + ['\0'] + hidden| <= 64
    requires Without(seen + ['\0'] + hidden, if count < 3 then ',' else '}')
    ensures ReadValue(seen + ['\0'] + hidden + [if count < 3 then ',' else '}'] + rest, count, number)
            == if number(seen).None? then Bad(BadValue) else Got(number(seen).value, rest)
  {
    var text := seen + ['\0'] + hidden;
    ExtractGap(text, Terminator(count), rest, 64);
    AfterGap(seen, '\0', hidden);
    assert text[..|seen|] == seen;
  }

  /** What is missing from a file that ends in its header: a brace, `"pairs"`, a colon or a bracket. */
  lemma HeaderErrors<T>(a: string, b: string, c: string, d: string, last: Row<T>, junk: nat -> Flags,
                        number: string -> Option<T>, capacity: Option<nat>)
    requires Without(a, '{') && Without(b, '"') && Without(c, ':') && Without(d, '[')
    ensures Parse(a, last, junk, number, capacity) == Failed(NoStart)
    ensures Parse(a + ['{'] + b, last, junk, number, capacity) == Failed(NoPairs)
    ensures Parse(a + ['{'] + (b + "\"pairs\"" + c), last, junk, number, capacity) == Failed(NoSeparator)
    ensures Parse(a + ['{'] + (b + "\"pairs\"" + (c + [':'] + d)), last, junk, number, capacity) == Failed(NoArray)
  {
    assert IndexOf(a, '{') == |a| && IndexOf(b, '"') == |b| && IndexOf(c, ':') == |c| && IndexOf(d, '[') == |d|;
    AfterGap(a, '{', b);
    AfterGap(a, '{', b + "\"pairs\"" + c);
    AfterGap(a, '{', b + "\"pairs\"" + (c + [':'] + d));
    ScanAfterGap(b, "\"pairs\"", c);
    ScanAfterGap(b, "\"pairs\"", c + [':'] + d);
    AfterGap(c, ':', d);
  }

  // ----- what the generator prints -----

  predicate Digits(t: string) {
    forall k :: 0 <= k < |t| ==> '0' <= t[k] <= '9'
  }

  predicate IsNumber(t: string, sign: string, whole: string, decimals: string) {
    && t == sign + whole + "." + decimals && (sign == "" || sign == "-")
    && 1 <= |whole| <= 3 && Digits(whole) && |decimals| == 16 && Digits(decimals)
  }

  /** A coordinate as `%3.16f` prints it: a sign where it is negative, up to three digits, a point and 16 decimals. */
  ghost predicate PrintedNumber(t: string) {
    exists sign, whole, decimals :: IsNumber(t, sign, whole, decimals)
  }

  lemma NumberCharacters(t: string, k: nat)
    requires PrintedNumber(t) && k < |t|
    ensures t[k] == '-' || t[k] == '.' || '0' <= t[k] <= '9'
  {
    var sign, whole, decimals :| IsNumber(t, sign, whole, decimals);
    if k < |sign| {
      assert t[k] == sign[k];
    } else if k < |sign| + |whole| {
      assert t[k] == whole[k - |sign|];
    } else if k > |sign| + |whole| {
      assert t[k] == decimals[k - |sign| - |whole| - 1];
    }
  }

  /** It has between 18 and 21 characters, and none that the reader looks for. */
  lemma NumberFits(t: string)
    requires PrintedNumber(t)
    ensures 18 <= |t| <= 21 && Without(t, ',') && Without(t, '}') && Without(t, '\0')
  {
    forall k | 0 <= k < |t|
      ensures t[k] != ',' && t[k] != '}' && t[k] != '\0'
    {
      NumberCharacters(t, k);
    }
  }

  ghost predicate PrintedNumbers(t: Row<string>) {
    forall f: Field :: PrintedNumber(t.Get(f))
  }

  /** The numbers a row of texts stands for. */
  ghost predicate Reads<T>(texts: Row<string>, values: Row<T>, number: string -> Option<T>) {
    forall f: Field :: number(texts.Get(f)) == Some(values.Get(f))
  }

  /** A file of printed coordinates, and their values. */
  ghost predicate Generated<T>(rows: seq<Row<string>>, values: seq<Row<T>>, number: string -> Option<T>) {
    |rows| == |values| && forall k :: 0 <= k < |rows| ==> PrintedNumbers(rows[k]) && Reads(rows[k], values[k], number)
  }

  lemma RowFits<T>(texts: Row<string>, values: Row<T>, number: string -> Option<T>)
    requires PrintedNumbers(texts) && Reads(texts, values, number)
    ensures RowDenotes(texts, values, number)
    ensures |texts.x0| >= 18 && |texts.y0| >= 18 && |texts.x1| >= 18 && |texts.y1| >= 18
  {
    forall f: Field
      ensures |texts.Get(f)| >= 18 && Denotes(texts.Get(f), values.Get(f), number)
    {
      assert PrintedNumber(texts.Get(f));
      NumberFits(texts.Get(f));
    }
    assert |texts.Get(X0)| >= 18 && |texts.Get(Y0)| >= 18 && |texts.Get(X1)| >= 18 && |texts.Get(Y1)| >= 18;
  }

  lemma {:induction false} RowsFit<T>(rows: seq<Row<string>>, values: seq<Row<T>>, number: string -> Option<T>)
    requires Generated(rows, values, number)
    ensures AllDenote(rows, values, number) && LongValues(rows)
    decreases |rows|
  {
    if rows == [] {
    } else {
      RowFits(rows[0], values[0], number);
      RowsFit(rows[1..], values[1..], number);
      assert forall k :: 0 < k < |rows| ==> rows[k] == rows[1..][k - 1];
    }
  }

  lemma EmptyFile<T(!new)>(last: Row<T>, junk: nat -> Flags, number: string -> Option<T>)
    ensures Parse(Printed([]), last, junk, number, None) == Done([])
  {
    var tail := "\n" + CLOSING;
    assert Printed([]) == HeaderText(HEADER) + (RowsText([], []) + tail);
    HeaderAndClosingAreGood();
    FileRoundTrip(HEADER, [], [], tail, [], last, junk, number);
  }

  /** Whatever the generator prints, the reader reads back, in list mode and in array mode with the estimated array:
      neither buffer overruns and the array has room. */
  lemma GeneratedRoundTrip<T(!new)>(rows: seq<Row<string>>, values: seq<Row<T>>, last: Row<T>, junk: nat -> Flags,
                                    number: string -> Option<T>)
    requires Generated(rows, values, number)
    ensures Parse(Printed(rows), last, junk, number, None) == Done(values)
    ensures |Printed(rows)| < 0x1_0000_0000_0000_0000 ==>
              Parse(Printed(rows), last, junk, number, Some(EstimateTotalEntries(|Printed(rows)|))) == Done(values)
  {
    if rows == [] {
      EmptyFile(last, junk, number);
      ArrayReadsWhatListReads(Printed([]), last, junk, number, EstimateTotalEntries(|Printed([])|));
    } else {
      RowsFit(rows, values, number);
      PrintedRoundTrip(rows, values, last, junk, number);
      if |Printed(rows)| < 0x1_0000_0000_0000_0000 {
        PreallocationSuffices(rows, values, last, junk, number);
      }
    }
  }

  /** The longest values have 21 characters. */
  lemma SampleValue()
    ensures PrintedNumber("-152.1370425038677752") && |"-152.1370425038677752"| == 21
  {
    assert IsNumber("-152.1370425038677752", "-", "152", "1370425038677752");
  }

  // ----- the text itself -----

  lemma Joined(s: string, a: string, b: string)
    ensures s + a + b == s + (a + b)
  {
  }

  lemma RowLiteral(t: Row<string>)
    ensures PrintedRow(t) == "{\"x0\":" + t.x0 + ", \"y0\":" + t.y0 + ", \"x1\":" + t.x1 + ", \"y1\":" + t.y1 + "}"
  {
    assert "{" + "\"x0\":" == "{\"x0\":" && "," + " \"y0\":" == ", \"y0\":";
    assert "," + " \"x1\":" == ", \"x1\":" && "," + " \"y1\":" == ", \"y1\":";
    var a := "{\"x0\":" + t.x0;
    Joined(a, ",", " \"y0\":");
    var b := a + ", \"y0\":" + t.y0;
    Joined(b, ",", " \"x1\":");
    Joined(b + ", \"x1\":" + t.x1, ",", " \"y1\":");
  }

  lemma LinesLiteral(t: Row<string>, u: Row<string>, line: Row<string> -> string)
    ensures Lines([t], true, line) == line(t) && Lines([t, u], true, line) == line(t) + ",\n" + line(u)
  {
    assert [t, u][1..] == [u] && [t][1..] == [] && [u][1..] == [];
    assert Lines([u], false, line) == ",\n" + line(u);
  }

  /** The text of a file: a header, rows in braces, a comma and a line break between rows, a footer. */
  lemma PrintedText(t: Row<string>, u: Row<string>)
    ensures PrintedRow(t) == "{\"x0\":" + t.x0 + ", \"y0\":" + t.y0 + ", \"x1\":" + t.x1 + ", \"y1\":" + t.y1 + "}"
    ensures Printed([]) == "{\"pairs\":[\n" + "\n]}\n"
    ensures Printed([t]) == "{\"pairs\":[\n" + PrintedRow(t) + "\n]}\n"
    ensures Printed([t, u]) == "{\"pairs\":[\n" + (PrintedRow(t) + ",\n" + PrintedRow(u)) + "\n]}\n"
  {
    RowLiteral(t);
    LinesLiteral(t, u, PrintedRow);
  }
}
