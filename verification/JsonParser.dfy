/** The JSON reader: a cursor over the file's characters, two fixed buffers, and the storage of the rows. */
module JsonParser {
  import opened Options
  import opened JsonScan
  import opened JsonRows
  import opened JsonStore

  /** A buffer that was cleared and then filled with `text` from its start. */
  ghost predicate Holds(buffer: seq<char>, text: string) {
    |text| <= |buffer| && buffer[..|text|] == text && forall k :: |text| <= k < |buffer| ==> buffer[k] == '\0'
  }

  lemma AfterFirst(s: string, c: char, i: nat)
    requires i <= |s| && forall k :: 0 <= k < i ==> s[k] != c
    requires i == |s| || s[i] == c
    ensures IndexOf(s, c) == i
  {
  }

  lemma HeldString(buffer: seq<char>, text: string)
    requires Holds(buffer, text)
    ensures CString(buffer) == CString(text)
    ensures IndexOf(buffer, '\0') == |buffer| <==> |text| == |buffer| && IndexOf(text, '\0') == |text|
  {
    var i := IndexOf(text, '\0');
    forall k | 0 <= k < |text|
      ensures buffer[k] == text[k]
    {
      assert buffer[..|text|][k] == text[k];
    }
    AfterFirst(buffer, '\0', i);
    assert buffer[..i] == buffer[..|text|][..i];
  }

  class Parser<T> {
    const fileData: array<char>
    var at: nat
    var remaining: nat
    const itemName: array<char>
    const itemValue: array<char>
    const storage: Storage<T>

    /** The cursor and the count of remaining characters always add up to the file. */
    ghost predicate Valid()
      reads this
    {
      && at + remaining == fileData.Length
      && itemName.Length == MAX_ITEM_NAME_LEN && itemValue.Length == MAX_VALUE_LEN
      && fileData != itemName && fileData != itemValue && itemName != itemValue
    }

    /** The text still to be read. */
    ghost function Rest(): string
      requires Valid()
      reads this, fileData
    {
      fileData[at..]
    }

    constructor (data: array<char>, storage: Storage<T>)
      ensures Valid() && fileData == data && this.storage == storage && Rest() == data[..]
      ensures fresh(itemName) && fresh(itemValue)
    {
      fileData := data;
      this.storage := storage;
      at := 0;
      remaining := data.Length;
      itemName := new char[MAX_ITEM_NAME_LEN](_ => '\0');
      itemValue := new char[MAX_VALUE_LEN](_ => '\0');
    }

    /** Moves just past the first `target`, or to the end of the file. */
    method AdvanceUntil(target: char) returns (found: bool)
      requires Valid()
      modifies this`at, this`remaining
      ensures Valid()
      ensures found <==> After(old(Rest()), target).Some?
      ensures Rest() == if found then After(old(Rest()), target).value else ""
    {
      found := false;
      ghost var text, i := Rest(), 0;
      while !found && remaining > 0
        invariant Valid() && i <= |text| && forall k :: 0 <= k < i ==> text[k] != target
        invariant at == old(at) + i + if found then 1 else 0
        invariant found ==> i < |text| && text[i] == target
        decreases remaining, !found
      {
        remaining := remaining - 1;
        if fileData[at] == target {
          found := true;
        } else {
          i := i + 1;
        }
        at := at + 1;
      }
      AfterFirst(text, target, i);
    }

    /** Looks for the characters of `pattern` one after the other. */
    method FindString(pattern: string) returns (found: bool)
      requires Valid()
      modifies this`at, this`remaining
      ensures Valid()
      ensures found <==> Scan(old(Rest()), pattern).Some?
      ensures Rest() == if found then Scan(old(Rest()), pattern).value else ""
    {
      for i := 0 to |pattern|
        invariant Valid() && Scan(old(Rest()), pattern) == Scan(Rest(), pattern[i..])
      {
        assert pattern[i..][0] == pattern[i] && pattern[i..][1..] == pattern[i + 1..];
        found := AdvanceUntil(pattern[i]);
        if !found {
          return false;
        }
      }
      found := true;
    }

    /** Copies the characters before `target` into a cleared buffer and moves past it. The result is always false; the
        reader stops when the text does not fit. */
    method ExtractUntil(buffer: array<char>, target: char) returns (result: bool, overran: bool)
      requires Valid() && buffer != fileData
      modifies this`at, this`remaining, buffer
      ensures !result && (overran || Valid())
      ensures var e := Extract(old(Rest()), target, buffer.Length);
              if overran then e.Overrun? else e.Extracted? && Rest() == e.rest && Holds(buffer[..], e.text)
    {
      result, overran := false, false;
      ghost var text := Rest();
      forall k | 0 <= k < buffer.Length {
        buffer[k] := '\0';
      }
      var found, i := false, 0;
      while !found && remaining > 0
        invariant Valid() && i <= |text| && i <= buffer.Length && forall k :: 0 <= k < i ==> text[k] != target
        invariant fileData[..] == old(fileData[..]) && at == old(at) + i + if found then 1 else 0
        invariant found ==> i < |text| && text[i] == target
        invariant Holds(buffer[..], text[..i])
        decreases remaining, !found
      {
        remaining := remaining - 1;
        if fileData[at] == target {
          found := true;
        } else {
          if i + 1 > buffer.Length {
            return false, true;
          }
          buffer[i] := fileData[at];
          i := i + 1;
        }
        at := at + 1;
      }
      AfterFirst(text, target, i);
    }

    /** Reads the name of an item up to its colon; `more` is false when the file ends first. */
    method ParseName() returns (field: Field, more: bool, error: Option<Error>)
      requires Valid()
      modifies this`at, this`remaining, itemName
      ensures error.Some? || Valid()
      ensures match ReadName(old(Rest()))
              case Bad(e) => error == Some(e)
              case Ended => error.None? && !more && Rest() == ""
              case Got(f, rest) => error.None? && more && field == f && Rest() == rest
    {
      field, more, error := X0, false, None;
      ghost var start := Rest();
      var quote := AdvanceUntil('"');
      if !quote {
        return;
      }
      var _, overran := ExtractUntil(itemName, '"');
      if overran {
        error := Some(BufferOverrun);
        return;
      }
      ghost var name := Extract(After(start, '"').value, '"', MAX_ITEM_NAME_LEN);
      HeldString(itemName[..], name.text);
      var named := FieldNamed(CString(itemName[..]));
      if named.None? {
        error := Some(UnknownItem);
        return;
      }
      field := named.value;
      more := AdvanceUntil(':');
    }

    /** Reads the value of item number `itemCount` of a row. */
    method ParseValue(itemCount: nat, number: string -> Option<T>) returns (value: Option<T>, error: Option<Error>)
      requires Valid()
      modifies this`at, this`remaining, itemValue
      ensures error.Some? || Valid()
      ensures match ReadValue(old(Rest()), itemCount, number)
              case Bad(e) => error == Some(e)
              case Ended => false
              case Got(v, rest) => error.None? && value == Some(v) && Rest() == rest
    {
      value, error := None, None;
      ghost var text := Extract(Rest(), Terminator(itemCount), MAX_VALUE_LEN);
      var _, overran := ExtractUntil(itemValue, if itemCount < 3 then ',' else '}');
      if overran {
        error := Some(BufferOverrun);
        return;
      }
      HeldString(itemValue[..], text.text);
      if IndexOf(itemValue[..], '\0') == MAX_VALUE_LEN {
        error := Some(UnterminatedValue);
        return;
      }
      value := number(CString(itemValue[..]));
      if value.None? {
        error := Some(BadValue);
      }
    }

    /** Reads the items of one row; `last` and `junk` are what the variables held before. */
    method ParseItems(last: Row<T>, junk: Flags, number: string -> Option<T>)
      returns (row: Row<T>, found: Flags, error: Option<Error>)
      requires Valid()
      modifies this`at, this`remaining, itemName, itemValue
      ensures error.Some? || Valid()
      ensures var r := ParseFields(old(Rest()), 0, last, junk, number);
              if error.Some? then r == RowFailed(error.value) else r == RowEnd(Rest(), row, found)
    {
      row, found, error := last, junk, None;
      var itemCount := 0;
      while itemCount < 4
        invariant Valid() && itemCount <= 4 && error.None?
        invariant ParseFields(old(Rest()), 0, last, junk, number) == ParseFields(Rest(), itemCount, row, found, number)
      {
        var field, more;
        field, more, error := ParseName();
        if error.Some? || !more {
          return;
        }
        var value;
        value, error := ParseValue(itemCount, number);
        if error.Some? {
          return;
        }
        row := row.Put(field, value.value);
        found := found.Put(field, true);
        itemCount := itemCount + 1;
      }
    }

    /** Looks for the next row and reads it; `more` is false when there is none. */
    method ParseRow(last: Row<T>, junk: Flags, number: string -> Option<T>)
      returns (row: Row<T>, more: bool, error: Option<Error>)
      requires Valid()
      modifies this`at, this`remaining, itemName, itemValue
      ensures error.Some? || Valid()
      ensures match ReadRow(old(Rest()), last, junk, number)
              case BadRow(e) => error == Some(e)
              case NoRow => error.None? && !more
              case NextRow(r, rest) => error.None? && more && row == r && Rest() == rest
    {
      row, error := last, None;
      more := AdvanceUntil('{');
      if !more {
        return;
      }
      var found;
      row, found, error := ParseItems(last, junk, number);
      if error.None? && (!found.x0 || !found.y0 || !found.x1 || !found.y1) {
        error := Some(MissingItems);
      }
    }

    ghost function Capacity(): Option<nat> {
      if storage.preallocated then Some(storage.dataArray.Length) else None
    }

    /** Appends a row, unless the array is full. */
    method StoreRow(row: Row<T>) returns (error: Option<Error>)
      requires storage.Valid()
      modifies storage, storage.dataArray, storage.nodes
      ensures storage.Valid() && Extends(old(storage.nodes), storage.nodes)
      ensures forall k :: |old(storage.nodes)| <= k < |storage.nodes| ==> fresh(storage.nodes[k])
      ensures if Capacity().Some? && |old(storage.Contents())| >= Capacity().value then error == Some(PastArray)
              else error.None? && storage.Contents() == old(storage.Contents()) + [row]
    {
      var ok := storage.Append(row);
      error := if ok then None else Some(PastArray);
    }

    /** Reads the next row and stores it. */
    method ParseAndStore(last: Row<T>, junk: Flags, number: string -> Option<T>)
      returns (row: Row<T>, more: bool, error: Option<Error>)
      requires Valid() && storage.Valid()
      modifies this`at, this`remaining, itemName, itemValue, storage, storage.dataArray, storage.nodes
      ensures storage.Valid() && Extends(old(storage.nodes), storage.nodes)
      ensures forall k :: |old(storage.nodes)| <= k < |storage.nodes| ==> fresh(storage.nodes[k])
      ensures match ReadRow(old(Rest()), last, junk, number)
              case BadRow(e) => error == Some(e)
              case NoRow => error.None? && !more && storage.Contents() == old(storage.Contents())
              case NextRow(r, rest) =>
                if Capacity().Some? && |old(storage.Contents())| >= Capacity().value then error == Some(PastArray)
                else error.None? && more && row == r && Valid() && Rest() == rest
                     && storage.Contents() == old(storage.Contents()) + [r]
    {
      row, more, error := ParseRow(last, junk, number);
      assert storage.Valid() && storage.Contents() == old(storage.Contents());
      if error.None? && more {
        error := StoreRow(row);
      }
    }

    /** The loop over the rows. */
    method ParseArray(last: Row<T>, junk: nat -> Flags, number: string -> Option<T>) returns (error: Option<Error>)
      requires Valid() && storage.Valid() && storage.Contents() == []
      modifies this`at, this`remaining, itemName, itemValue, storage, storage.dataArray
      ensures storage.Valid()
      ensures match ParseRows(old(Rest()), [], last, junk, number, Capacity())
              case Done(rows) => error.None? && storage.Contents() == rows
              case Failed(e) => error == Some(e)
    {
      error := None;
      var row := last;
      ghost var goal := ParseRows(Rest(), [], last, junk, number, Capacity());
      while remaining > 0
        invariant Valid() && storage.Valid() && error.None?
        invariant forall k :: 0 <= k < |storage.nodes| ==> fresh(storage.nodes[k])
        invariant goal == ParseRows(Rest(), storage.Contents(), row, junk, number, Capacity())
        decreases remaining
      {
        var more;
        row, more, error := ParseAndStore(row, junk(storage.dataItemCount), number);
        if error.Some? || !more {
          return;
        }
      }
      assert Rest() == "";
    }

    /** Reads a file into empty storage. `last` and `junk` are the reader's uninitialised numbers and flags. On success
        the storage holds exactly the rows the text denotes, in list and in array form alike. */
    method ParseFile(last: Row<T>, junk: nat -> Flags, number: string -> Option<T>) returns (error: Option<Error>)
      requires Valid() && storage.Valid() && storage.Contents() == []
      modifies this`at, this`remaining, itemName, itemValue, storage, storage.dataArray
      ensures storage.Valid()
      ensures match Parse(old(Rest()), last, junk, number, Capacity())
              case Done(rows) => error.None? && storage.Contents() == rows
              case Failed(e) => error == Some(e)
    {
      var foundIt := AdvanceUntil('{');
      if !foundIt {
        return Some(NoStart);
      }
      foundIt := FindString("\"pairs\"");
      if !foundIt {
        return Some(NoPairs);
      }
      foundIt := AdvanceUntil(':');
      if !foundIt {
        return Some(NoSeparator);
      }
      foundIt := AdvanceUntil('[');
      if !foundIt {
        return Some(NoArray);
      }
      error := ParseArray(last, junk, number);
    }
  }
}
