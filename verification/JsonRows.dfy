/** What reading a JSON file of rows yields, as a function of its text. Uninitialised variables of the reader are
    parameters: the found flags a row starts with, and the numbers held before the first row. */
module JsonRows {
  import opened Options
  import opened JsonScan

  const MAX_ITEM_NAME_LEN := 8
  const MAX_VALUE_LEN := 64

  datatype Field = X0 | Y0 | X1 | Y1

  datatype Row<T> = Row(x0: T, y0: T, x1: T, y1: T) {
    function Get(f: Field): T {
      match f case X0 => x0 case Y0 => y0 case X1 => x1 case Y1 => y1
    }

    function Put(f: Field, v: T): Row<T> {
      match f
      case X0 => this.(x0 := v)
      case Y0 => this.(y0 := v)
      case X1 => this.(x1 := v)
      case Y1 => this.(y1 := v)
    }
  }

  type Flags = Row<bool>

  predicate AllFound(found: Flags) {
    found.x0 && found.y0 && found.x1 && found.y1
  }

  function Name(f: Field): string {
    match f case X0 => "x0" case Y0 => "y0" case X1 => "x1" case Y1 => "y1"
  }

  function FieldNamed(name: string): Option<Field> {
    if name == "x0" then Some(X0) else if name == "y0" then Some(Y0)
    else if name == "x1" then Some(X1) else if name == "y1" then Some(Y1) else None
  }

  /** The characters of a buffer up to its first NUL. */
  function CString(s: string): string {
    s[..IndexOf(s, '\0')]
  }

  /** The errors the reader stops with; the last two are its out-of-bounds accesses. */
  datatype Error =
    | NoStart | NoPairs | NoSeparator | NoArray
    | BufferOverrun | UnknownItem | BadValue | MissingItems
    | UnterminatedValue | PastArray

  datatype RowResult<T> = RowEnd(rest: string, row: Row<T>, found: Flags) | RowFailed(error: Error)

  datatype Outcome<T> = Done(rows: seq<Row<T>>) | Failed(error: Error)

  function Terminator(count: nat): char {
    if count < 3 then ',' else '}'
  }

  /** A piece of a row: read, cut short by the end of the file, or in error. */
  datatype Piece<T> = Got(value: T, rest: string) | Ended | Bad(error: Error)

  /** Reads the name of an item and its colon. */
  function ReadName(s: string): (r: Piece<Field>)
    ensures r.Got? ==> |r.rest| < |s|
  {
    var quote := After(s, '"');
    if quote.None? then Ended
    else
      var name := Extract(quote.value, '"', MAX_ITEM_NAME_LEN);
      if name.Overrun? then Bad(BufferOverrun)
      else
        var field := FieldNamed(CString(name.text));
        if field.None? then Bad(UnknownItem)
        else
          var colon := After(name.rest, ':');
          if colon.None? then Ended else Got(field.value, colon.value)
  }

  /** Reads the value of an item: the first three end at a comma, the last at the closing brace. */
  function ReadValue<T>(s: string, count: nat, number: string -> Option<T>): (r: Piece<T>)
    ensures r.Got? ==> |r.rest| <= |s|
  {
    var value := Extract(s, Terminator(count), MAX_VALUE_LEN);
    if value.Overrun? then Bad(BufferOverrun)
    else if |value.text| == MAX_VALUE_LEN && IndexOf(value.text, '\0') == MAX_VALUE_LEN then Bad(UnterminatedValue)
    else
      var v := number(CString(value.text));
      if v.None? then Bad(BadValue) else Got(v.value, value.rest)
  }

  /** Reads the items of a row that has `count` items already. */
  function ParseFields<T>(s: string, count: nat, row: Row<T>, found: Flags, number: string -> Option<T>): RowResult<T>
    decreases 4 - count
  {
    if count >= 4 then RowEnd(s, row, found)
    else
      match ReadName(s)
      case Ended => RowEnd("", row, found)
      case Bad(e) => RowFailed(e)
      case Got(f, afterName) =>
        match ReadValue(afterName, count, number)
        case Ended => RowEnd("", row, found)
        case Bad(e) => RowFailed(e)
        case Got(v, rest) => ParseFields(rest, count + 1, row.Put(f, v), found.Put(f, true), number)
  }

  lemma {:induction false} FieldsShorten<T>(s: string, count: nat, row: Row<T>, found: Flags,
                                            number: string -> Option<T>)
    ensures var r := ParseFields(s, count, row, found, number); r.RowEnd? ==> |r.rest| <= |s|
    decreases 4 - count
  {
    var name := ReadName(s);
    if count < 4 && name.Got? {
      var v := ReadValue(name.rest, count, number);
      if v.Got? {
        FieldsShorten(v.rest, count + 1, row.Put(name.value, v.value), found.Put(name.value, true), number);
      }
    }
  }

  datatype Next<T> = NoRow | NextRow(row: Row<T>, rest: string) | BadRow(error: Error)

  /** Reads the next row; `last` and `junk` are the numbers and flags the variables held before. */
  function ReadRow<T>(s: string, last: Row<T>, junk: Flags, number: string -> Option<T>): (r: Next<T>)
    ensures r.NextRow? ==> |r.rest| < |s|
  {
    var open := After(s, '{');
    if open.None? then NoRow
    else
      FieldsShorten(open.value, 0, last, junk, number);
      match ParseFields(open.value, 0, last, junk, number)
      case RowFailed(e) => BadRow(e)
      case RowEnd(rest, row, found) => if AllFound(found) then NextRow(row, rest) else BadRow(MissingItems)
  }

  /** Reads rows until no more text or no more '{'. `junk(k)` are the flags the `k`-th row starts with; a capacity is
      the size of a preallocated array. */
  function ParseRows<T>(s: string, rows: seq<Row<T>>, last: Row<T>, junk: nat -> Flags, number: string -> Option<T>,
                        capacity: Option<nat>): Outcome<T>
    decreases |s|
  {
    match ReadRow(s, last, junk(|rows|), number)
    case NoRow => Done(rows)
    case BadRow(e) => Failed(e)
    case NextRow(row, rest) =>
      if capacity.Some? && |rows| >= capacity.value then Failed(PastArray)
      else ParseRows(rest, rows + [row], row, junk, number, capacity)
  }

  /** Reads a whole file: the header is searched for, then rows are read. */
  function Parse<T>(s: string, last: Row<T>, junk: nat -> Flags, number: string -> Option<T>,
                    capacity: Option<nat>): Outcome<T>
  {
    var start := After(s, '{');
    if start.None? then Failed(NoStart)
    else
      var pairs := Scan(start.value, "\"pairs\"");
      if pairs.None? then Failed(NoPairs)
      else
        var separator := After(pairs.value, ':');
        if separator.None? then Failed(NoSeparator)
        else
          var list := After(separator.value, '[');
          if list.None? then Failed(NoArray)
          else ParseRows(list.value, [], last, junk, number, capacity)
  }

  // ----- a preallocated array reads what the list reads, as long as it is large enough -----

  lemma {:induction false} RowsOnlyGrow<T>(s: string, rows: seq<Row<T>>, last: Row<T>, junk: nat -> Flags,
                                           number: string -> Option<T>)
    ensures var r := ParseRows(s, rows, last, junk, number, None); r.Done? ==> rows <= r.rows
    decreases |s|
  {
    var r := ReadRow(s, last, junk(|rows|), number);
    if r.NextRow? {
      RowsOnlyGrow(r.rest, rows + [r.row], r.row, junk, number);
    }
  }

  lemma {:induction false} CapacityOfRows<T>(s: string, rows: seq<Row<T>>, last: Row<T>, junk: nat -> Flags,
                                             number: string -> Option<T>, capacity: nat)
    requires |rows| <= capacity
    ensures var inList := ParseRows(s, rows, last, junk, number, None);
            var inArray := ParseRows(s, rows, last, junk, number, Some(capacity));
            if inArray == Failed(PastArray) then inList.Done? ==> |inList.rows| > capacity
            else inArray == inList && (inList.Done? ==> |inList.rows| <= capacity)
    decreases |s|
  {
    var r := ReadRow(s, last, junk(|rows|), number);
    if r.NextRow? {
      if |rows| < capacity {
        CapacityOfRows(r.rest, rows + [r.row], r.row, junk, number, capacity);
      } else {
        RowsOnlyGrow(r.rest, rows + [r.row], r.row, junk, number);
      }
    }
  }

  /** On any file that the list mode reads, the array mode reads the same rows exactly when the array has room for
      them; otherwise it writes past the array. On files the list mode rejects it may only fail. */
  lemma ArrayReadsWhatListReads<T>(s: string, last: Row<T>, junk: nat -> Flags, number: string -> Option<T>,
                                   capacity: nat)
    ensures var inList := Parse(s, last, junk, number, None);
            var inArray := Parse(s, last, junk, number, Some(capacity));
            && (inList.Done? ==>
                  if |inList.rows| <= capacity then inArray == inList else inArray == Failed(PastArray))
            && (inList.Failed? ==> inArray == inList || inArray == Failed(PastArray))
  {
    var start := After(s, '{');
    if start.Some? && Scan(start.value, "\"pairs\"").Some? {
      var separator := After(Scan(start.value, "\"pairs\"").value, ':');
      if separator.Some? && After(separator.value, '[').Some? {
        CapacityOfRows(After(separator.value, '[').value, [], last, junk, number, capacity);
      }
    }
  }
}
