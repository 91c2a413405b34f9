/** Reading gives back what was written: any order of the items of a row, any text between the tokens that does not
    contain the next token's character, and whatever the reader's uninitialised variables hold. */
module JsonRoundTrip {
  import opened Options
  import opened JsonScan
  import opened JsonRows

  // ----- the accepted texts -----

  /** One item of a row: the text before its name, the name, and the text before the colon. */
  datatype Slot = Slot(lead: string, field: Field, mid: string)

  /** The text before a row's brace, and its items in order. */
  datatype RowLayout = RowLayout(lead: string, slots: seq<Slot>)

  datatype Header = Header(beforeBrace: string, beforePairs: string, beforeColon: string, beforeBracket: string)

  function ItemText(texts: Row<string>, s: Slot, count: nat): string {
    s.lead + ['"'] + (Name(s.field) + ['"'] + (s.mid + [':'] + (texts.Get(s.field) + [Terminator(count)])))
  }

  function ItemsText(texts: Row<string>, slots: seq<Slot>, count: nat): string
    decreases |slots|
  {
    if slots == [] then "" else ItemText(texts, slots[0], count) + ItemsText(texts, slots[1..], count + 1)
  }

  function RowText(texts: Row<string>, layout: RowLayout): string {
    layout.lead + ['{'] + ItemsText(texts, layout.slots, 0)
  }

  function RowsText(rows: seq<Row<string>>, layouts: seq<RowLayout>): string
    requires |layouts| == |rows|
  {
    if rows == [] then "" else RowText(rows[0], layouts[0]) + RowsText(rows[1..], layouts[1..])
  }

  function HeaderText(h: Header): string {
    h.beforeBrace + ['{'] + (h.beforePairs + "\"pairs\"" + (h.beforeColon + [':'] + (h.beforeBracket + ['['])))
  }

  predicate GoodSlot(s: Slot) {
    Without(s.lead, '"') && Without(s.mid, ':')
  }

  predicate GoodLayout(layout: RowLayout) {
    Without(layout.lead, '{') && |layout.slots| == 4 && forall k :: 0 <= k < 4 ==> GoodSlot(layout.slots[k])
  }

  predicate GoodHeader(h: Header) {
    && Without(h.beforeBrace, '{') && Without(h.beforePairs, '"')
    && Without(h.beforeColon, ':') && Without(h.beforeBracket, '[')
  }

  /** Every field occurs once. */
  predicate AllFields(slots: seq<Slot>) {
    forall j, k :: 0 <= j < k < |slots| ==> slots[j].field != slots[k].field
  }

  /** The text of a value: it fits the buffer, contains no terminator and reads as `v`. */
  ghost predicate Denotes<T>(text: string, v: T, number: string -> Option<T>) {
    |text| < MAX_VALUE_LEN && Without(text, ',') && Without(text, '}') && Without(text, '\0') && number(text) == Some(v)
  }

  ghost predicate RowDenotes<T>(texts: Row<string>, values: Row<T>, number: string -> Option<T>) {
    forall f: Field :: Denotes(texts.Get(f), values.Get(f), number)
  }

  // ----- one row -----

  /** `row` with the named fields taken from `values`. */
  function PutAll<T>(row: Row<T>, values: Row<T>, slots: seq<Slot>): Row<T>
    decreases |slots|
  {
    if slots == [] then row else PutAll(row.Put(slots[0].field, values.Get(slots[0].field)), values, slots[1..])
  }

  predicate Names(slots: seq<Slot>, f: Field) {
    exists k :: 0 <= k < |slots| && slots[k].field == f
  }

  lemma {:induction false} PutAllGets<T>(row: Row<T>, values: Row<T>, slots: seq<Slot>, f: Field)
    ensures PutAll(row, values, slots).Get(f) == if Names(slots, f) then values.Get(f) else row.Get(f)
    decreases |slots|
  {
    if slots == [] {
    } else {
      PutAllGets(row.Put(slots[0].field, values.Get(slots[0].field)), values, slots[1..], f);
      assert Names(slots[1..], f) ==> Names(slots, f);
      assert forall k :: 0 < k < |slots| ==> slots[k] == slots[1..][k - 1];
    }
  }

  lemma SameRow<T>(a: Row<T>, b: Row<T>)
    requires forall f: Field :: a.Get(f) == b.Get(f)
    ensures a == b
  {
    assert a.Get(X0) == b.Get(X0) && a.Get(Y0) == b.Get(Y0) && a.Get(X1) == b.Get(X1) && a.Get(Y1) == b.Get(Y1);
  }

  lemma AllFieldsNames(slots: seq<Slot>, f: Field)
    requires |slots| == 4 && AllFields(slots)
    ensures Names(slots, f)
  {
    assert slots[0].field == f || slots[1].field == f || slots[2].field == f || slots[3].field == f;
  }

  lemma CStringOf(text: string)
    requires Without(text, '\0')
    ensures CString(text) == text && IndexOf(text, '\0') == |text|
  {
  }

  lemma NameFacts(f: Field)
    ensures Without(Name(f), '"') && Without(Name(f), '\0') && |Name(f)| <= MAX_ITEM_NAME_LEN
    ensures FieldNamed(Name(f)) == Some(f)
  {
  }

  lemma NameRoundTrip(s: Slot, rest: string)
    requires GoodSlot(s)
    ensures ReadName(s.lead + ['"'] + (Name(s.field) + ['"'] + (s.mid + [':'] + rest))) == Got(s.field, rest)
  {
    var afterName := s.mid + [':'] + rest;
    AfterGap(s.lead, '"', Name(s.field) + ['"'] + afterName);
    NameFacts(s.field);
    ExtractGap(Name(s.field), '"', afterName, MAX_ITEM_NAME_LEN);
    CStringOf(Name(s.field));
    AfterGap(s.mid, ':', rest);
  }

  lemma ValueRoundTrip<T>(text: string, v: T, count: nat, rest: string, number: string -> Option<T>)
    requires Denotes(text, v, number)
    ensures ReadValue(text + [Terminator(count)] + rest, count, number) == Got(v, rest)
  {
    ExtractGap(text, Terminator(count), rest, MAX_VALUE_LEN);
    CStringOf(text);
  }

  /** Reading one item. */
  lemma ItemRoundTrip<T>(texts: Row<string>, s: Slot, count: nat, rest: string, values: Row<T>, row: Row<T>,
                         found: Flags, number: string -> Option<T>)
    requires count < 4 && GoodSlot(s) && Denotes(texts.Get(s.field), values.Get(s.field), number)
    ensures ParseFields(ItemText(texts, s, count) + rest, count, row, found, number)
            == ParseFields(rest, count + 1, row.Put(s.field, values.Get(s.field)), found.Put(s.field, true), number)
  {
    var text, end := texts.Get(s.field), Terminator(count);
    var afterColon := text + [end] + rest;
    assert ItemText(texts, s, count) + rest
        == s.lead + ['"'] + (Name(s.field) + ['"'] + (s.mid + [':'] + afterColon));
    NameRoundTrip(s, afterColon);
    ValueRoundTrip(text, values.Get(s.field), count, rest, number);
  }

  const EVERY := Row(true, true, true, true)

  lemma ItemsTextSplit(texts: Row<string>, slots: seq<Slot>, count: nat, rest: string)
    ensures ItemsText(texts, slots, count) + rest
            == if slots == [] then rest
               else ItemText(texts, slots[0], count) + (ItemsText(texts, slots[1..], count + 1) + rest)
  {
  }

  /** `parse` reads one item of these texts at a time. */
  ghost predicate ReadsItems<T(!new)>(texts: Row<string>, values: Row<T>,
                                      parse: (string, nat, Row<T>, Flags) -> RowResult<T>)
  {
    forall s: Slot, more: string, c: nat, row, found {:trigger parse(ItemText(texts, s, c) + more, c, row, found)} ::
      c < 4 && GoodSlot(s) ==>
        parse(ItemText(texts, s, c) + more, c, row, found)
        == parse(more, c + 1, row.Put(s.field, values.Get(s.field)), found.Put(s.field, true))
  }

  lemma {:induction false} ItemByItem<T(!new)>(texts: Row<string>, slots: seq<Slot>, count: nat, rest: string,
                                               values: Row<T>, row: Row<T>, found: Flags,
                                               parse: (string, nat, Row<T>, Flags) -> RowResult<T>)
    requires count + |slots| == 4 && forall k :: 0 <= k < |slots| ==> GoodSlot(slots[k])
    requires ReadsItems(texts, values, parse)
    ensures parse(ItemsText(texts, slots, count) + rest, count, row, found)
            == parse(rest, 4, PutAll(row, values, slots), PutAll(found, EVERY, slots))
    decreases |slots|
  {
    ItemsTextSplit(texts, slots, count, rest);
    if slots != [] {
      var f := slots[0].field;
      ItemByItem(texts, slots[1..], count + 1, rest, values, row.Put(f, values.Get(f)), found.Put(f, true), parse);
    }
  }

  lemma ItemsRoundTrip<T(!new)>(texts: Row<string>, slots: seq<Slot>, rest: string, values: Row<T>, row: Row<T>,
                                found: Flags, number: string -> Option<T>)
    requires |slots| == 4 && forall k :: 0 <= k < |slots| ==> GoodSlot(slots[k])
    requires RowDenotes(texts, values, number)
    ensures ParseFields(ItemsText(texts, slots, 0) + rest, 0, row, found, number)
            == RowEnd(rest, PutAll(row, values, slots), PutAll(found, EVERY, slots))
  {
    var parse := (s: string, c: nat, r: Row<T>, fl: Flags) => ParseFields(s, c, r, fl, number);
    forall s: Slot, more: string, c: nat, r, fl | c < 4 && GoodSlot(s)
      ensures ParseFields(ItemText(texts, s, c) + more, c, r, fl, number)
              == ParseFields(more, c + 1, r.Put(s.field, values.Get(s.field)), fl.Put(s.field, true), number)
    {
      assert Denotes(texts.Get(s.field), values.Get(s.field), number);
      ItemRoundTrip(texts, s, c, more, values, r, fl, number);
    }
    ItemByItem(texts, slots, 0, rest, values, row, found, parse);
  }

  /** After the items of a row, exactly the named fields and those flagged before are flagged. */
  lemma RowFlags(slots: seq<Slot>, junk: Flags)
    ensures AllFound(PutAll(junk, EVERY, slots)) <==> forall f: Field :: Names(slots, f) || junk.Get(f)
  {
    var found := PutAll(junk, EVERY, slots);
    forall f: Field
      ensures found.Get(f) == (Names(slots, f) || junk.Get(f))
    {
      PutAllGets(junk, EVERY, slots, f);
    }
    assert AllFound(found) <==> found.Get(X0) && found.Get(Y0) && found.Get(X1) && found.Get(Y1);
  }

  lemma RowValues<T>(slots: seq<Slot>, last: Row<T>, values: Row<T>)
    requires |slots| == 4 && AllFields(slots)
    ensures PutAll(last, values, slots) == values && forall f: Field :: Names(slots, f)
  {
    forall f: Field
      ensures Names(slots, f) && PutAll(last, values, slots).Get(f) == values.Get(f)
    {
      AllFieldsNames(slots, f);
      PutAllGets(last, values, slots, f);
    }
    SameRow(PutAll(last, values, slots), values);
  }

  /** A row of four items is accepted exactly when each field is named or happens to be flagged already; only when all
      four are named does its value not depend on what the variables held before. */
  lemma RowAccepted<T(!new)>(texts: Row<string>, layout: RowLayout, rest: string, values: Row<T>,
                             last: Row<T>, junk: Flags, number: string -> Option<T>)
    requires GoodLayout(layout) && RowDenotes(texts, values, number)
    ensures var r := ParseFields(ItemsText(texts, layout.slots, 0) + rest, 0, last, junk, number);
            && r.RowEnd? && r.rest == rest
            && (AllFound(r.found) <==> forall f: Field :: Names(layout.slots, f) || junk.Get(f))
            && (AllFields(layout.slots) ==> AllFound(r.found) && r.row == values)
  {
    ItemsRoundTrip(texts, layout.slots, rest, values, last, junk, number);
    RowFlags(layout.slots, junk);
    if AllFields(layout.slots) {
      RowValues(layout.slots, last, values);
    }
  }

  // ----- a whole file -----

  ghost predicate GoodRow<T>(texts: Row<string>, layout: RowLayout, values: Row<T>, number: string -> Option<T>) {
    GoodLayout(layout) && AllFields(layout.slots) && RowDenotes(texts, values, number)
  }

  ghost predicate GoodRows<T>(rows: seq<Row<string>>, layouts: seq<RowLayout>, values: seq<Row<T>>,
                              number: string -> Option<T>)
    decreases |rows|
  {
    && |layouts| == |rows| == |values|
    && (rows != [] ==>
          GoodRow(rows[0], layouts[0], values[0], number) && GoodRows(rows[1..], layouts[1..], values[1..], number))
  }

  lemma OneRowRoundTrip<T(!new)>(texts: Row<string>, layout: RowLayout, rest: string, values: Row<T>, done: seq<Row<T>>,
                           last: Row<T>, junk: nat -> Flags, number: string -> Option<T>)
    requires GoodRow(texts, layout, values, number)
    ensures ParseRows(RowText(texts, layout) + rest, done, last, junk, number, None)
            == ParseRows(rest, done + [values], values, junk, number, None)
  {
    var items := ItemsText(texts, layout.slots, 0);
    assert RowText(texts, layout) + rest == layout.lead + ['{'] + (items + rest);
    AfterGap(layout.lead, '{', items + rest);
    RowAccepted(texts, layout, rest, values, last, junk(|done|), number);
  }

  lemma NoMoreRows<T>(tail: string, done: seq<Row<T>>, last: Row<T>, junk: nat -> Flags, number: string -> Option<T>)
    requires Without(tail, '{')
    ensures ParseRows(tail, done, last, junk, number, None) == Done(done)
  {
  }

  lemma RowsTextSplit(rows: seq<Row<string>>, layouts: seq<RowLayout>, tail: string)
    requires |layouts| == |rows|
    ensures RowsText(rows, layouts) + tail
            == if rows == [] then tail
               else RowText(rows[0], layouts[0]) + (RowsText(rows[1..], layouts[1..]) + tail)
  {
  }

  lemma Moved<T>(done: seq<T>, values: seq<T>)
    requires values != []
    ensures done + [values[0]] + values[1..] == done + values
  {
  }

  lemma {:induction false} RowsRoundTrip<T(!new)>(rows: seq<Row<string>>, layouts: seq<RowLayout>, tail: string,
                                            values: seq<Row<T>>, done: seq<Row<T>>, last: Row<T>,
                                            junk: nat -> Flags, number: string -> Option<T>)
    requires GoodRows(rows, layouts, values, number) && Without(tail, '{')
    ensures ParseRows(RowsText(rows, layouts) + tail, done, last, junk, number, None) == Done(done + values)
    decreases |rows|
  {
    RowsTextSplit(rows, layouts, tail);
    if rows == [] {
      NoMoreRows(tail, done, last, junk, number);
      assert done + values == done;
    } else {
      var rest := RowsText(rows[1..], layouts[1..]) + tail;
      OneRowRoundTrip(rows[0], layouts[0], rest, values[0], done, last, junk, number);
      RowsRoundTrip(rows[1..], layouts[1..], tail, values[1..], done + [values[0]], values[0], junk, number);
      Moved(done, values);
    }
  }

  lemma {:induction false} ScanPrefix(pattern: string, rest: string)
    ensures Scan(pattern + rest, pattern) == Some(rest)
    decreases |pattern|
  {
    if pattern == "" {
      assert pattern + rest == rest;
    } else {
      assert pattern + rest == "" + [pattern[0]] + (pattern[1..] + rest);
      AfterGap("", pattern[0], pattern[1..] + rest);
      ScanPrefix(pattern[1..], rest);
    }
  }

  lemma ScanAfterGap(gap: string, pattern: string, rest: string)
    requires pattern != "" && Without(gap, pattern[0])
    ensures Scan(gap + pattern + rest, pattern) == Some(rest)
  {
    assert gap + pattern + rest == gap + [pattern[0]] + (pattern[1..] + rest);
    AfterGap(gap, pattern[0], pattern[1..] + rest);
    ScanPrefix(pattern[1..], rest);
  }

  /** Every file of the grammar is read as exactly its rows, in order, whatever the uninitialised variables held. */
  lemma FileRoundTrip<T(!new)>(h: Header, rows: seq<Row<string>>, layouts: seq<RowLayout>, tail: string,
                               values: seq<Row<T>>, last: Row<T>, junk: nat -> Flags, number: string -> Option<T>)
    requires GoodHeader(h) && GoodRows(rows, layouts, values, number) && Without(tail, '{')
    ensures Parse(HeaderText(h) + (RowsText(rows, layouts) + tail), last, junk, number, None) == Done(values)
  {
    var body := RowsText(rows, layouts) + tail;
    var afterColon := h.beforeBracket + ['['] + body;
    var afterPairs := h.beforeColon + [':'] + afterColon;
    var afterBrace := h.beforePairs + "\"pairs\"" + afterPairs;
    assert HeaderText(h) + body == h.beforeBrace + ['{'] + afterBrace;
    AfterGap(h.beforeBrace, '{', afterBrace);
    ScanAfterGap(h.beforePairs, "\"pairs\"", afterPairs);
    AfterGap(h.beforeColon, ':', afterColon);
    AfterGap(h.beforeBracket, '[', body);
    RowsRoundTrip(rows, layouts, tail, values, [], last, junk, number);
    assert [] + values == values;
  }
}
