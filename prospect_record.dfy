/**
 * Turning parsed CSV rows into prospect records: each row becomes a record
 * stamped with the organisation id and holding the mapped columns; records
 * without a truthy email are then dropped.
 */
module ProspectRecord {
  import opened Wrappers
  import opened JsString
  import opened FieldMapping
  import opened Selection

  /**
   * A parsed CSV row: header name to cell text. A header the row has no cell
   * for is absent, which is what reading it as `undefined` means for header
   * names that are not members of `Object.prototype`.
   */
  type Row = map<string, string>

  /** The keys of a record sent to the `prospects` table. */
  datatype Key = OrgId | Column(field: Field)

  /** The JSON values a record holds. */
  datatype Value = Null | Text(text: string) | TagArray(tags: seq<string>)

  type Record = map<Key, Value>

  /** `row[column]` for a header that is not an `Object.prototype` member: the cell, or `None` for `undefined`. */
  function Cell(row: Row, column: string): (r: Option<string>)
    ensures r.Some? <==> column in row
    ensures r.Some? ==> r.value == row[column]
  {
    if column in row then Some(row[column]) else None
  }

  /** Drops the empty pieces of a list, keeping the order (`filter(Boolean)` on strings). */
  function NonEmpty(pieces: seq<string>): (kept: seq<string>)
    ensures forall t :: t in kept ==> t != "" && t in pieces
    ensures forall t :: t in pieces && t != "" ==> t in kept
  {
    if pieces == [] then []
    else
      var n := |pieces| - 1;
      assert pieces == pieces[..n] + [pieces[n]];
      NonEmpty(pieces[..n]) + (if pieces[n] == "" then [] else [pieces[n]])
  }

  /** What `filter(Boolean)` keeps of a string: the string itself, when it is not empty. */
  function KeepNonEmpty(piece: string): (r: Option<string>)
    ensures r.Some? <==> piece != ""
    ensures r.Some? ==> r.value == piece
  {
    if piece == "" then None else Some(piece)
  }

  /** `NonEmpty` keeps exactly the non-empty pieces, in their order, each once. */
  lemma {:induction false} NonEmptySelects(pieces: seq<string>) returns (idx: seq<nat>)
    ensures Selects(pieces, NonEmpty(pieces), idx, KeepNonEmpty)
  {
    if pieces == [] {
      idx := [];
    } else {
      var n := |pieces| - 1;
      var front := NonEmptySelects(pieces[..n]);
      if pieces[n] != "" {
        idx := SelectsKeep(pieces, NonEmpty(pieces[..n]), front, KeepNonEmpty);
      } else {
        idx := SelectsSkip(pieces, NonEmpty(pieces[..n]), front, KeepNonEmpty);
      }
    }
  }

  /** Trims every piece (`map(t => t.trim())`): one trimmed piece per piece, in order. */
  function TrimAll(pieces: seq<string>): (trimmed: seq<string>)
    ensures |trimmed| == |pieces|
  {
    seq(|pieces|, i requires 0 <= i < |pieces| => Trim(pieces[i]))
  }

  /** Trimmed pieces of comma-free pieces are comma-free and trimmed. */
  lemma TrimmedPieces(pieces: seq<string>)
    requires forall p :: p in pieces ==> ',' !in p
    ensures forall t :: t in TrimAll(pieces) ==> ',' !in t && Trim(t) == t
  {
    forall i | 0 <= i < |pieces|
      ensures ',' !in TrimAll(pieces)[i] && Trim(TrimAll(pieces)[i]) == TrimAll(pieces)[i]
    {
      if ',' in Trim(pieces[i]) { TrimChars(pieces[i], ','); }
      TrimIdempotent(pieces[i]);
    }
  }

  /**
   * The `tags` cell as a list: `cell.split(',').map(t => t.trim()).filter(Boolean)`.
   * Every tag is non-empty, comma-free and already trimmed; an empty cell gives no tags.
   */
  function TagList(cell: string): (tags: seq<string>)
    ensures forall t :: t in tags ==> t != "" && ',' !in t && Trim(t) == t
    ensures cell == "" ==> tags == []
  {
    SplitCommaFree(cell);
    TrimmedPieces(Split(cell));
    assert cell == "" ==> TrimAll(Split(cell)) == [""] && [""][..0] == [] && NonEmpty([""]) == NonEmpty([]) + [];
    NonEmpty(TrimAll(Split(cell)))
  }

  /** `filter(Boolean)` of two lists joined is the filter of each, joined. */
  lemma {:induction false} NonEmptyAppend(a: seq<string>, b: seq<string>)
    ensures NonEmpty(a + b) == NonEmpty(a) + NonEmpty(b)
  {
    if b == [] {
      assert a + b == a;
    } else {
      var n := |b| - 1;
      NonEmptyAppend(a, b[..n]);
      assert (a + b)[..|a + b| - 1] == a + b[..n];
      assert (a + b)[|a + b| - 1] == b[n];
    }
  }

  /** `map(t => t.trim())` of two lists joined is the map of each, joined. */
  lemma TrimAllAppend(a: seq<string>, b: seq<string>)
    ensures TrimAll(a + b) == TrimAll(a) + TrimAll(b)
  {
    var left, right := TrimAll(a + b), TrimAll(a) + TrimAll(b);
    forall i | 0 <= i < |a + b| ensures left[i] == right[i] {
      if i < |a| {
        assert (a + b)[i] == a[i];
        assert right[i] == TrimAll(a)[i];
      } else {
        assert (a + b)[i] == b[i - |a|];
        assert right[i] == TrimAll(b)[i - |a|];
      }
    }
  }

  /** The tags of two comma-separated halves are the tags of each half, in order. */
  lemma TagListAtComma(a: string, b: string)
    ensures TagList(a + "," + b) == TagList(a) + TagList(b)
  {
    SplitAtComma(a, b);
    TrimAllAppend(Split(a), Split(b));
    NonEmptyAppend(TrimAll(Split(a)), TrimAll(Split(b)));
  }

  /** A cell without commas is one tag, its trimmed text, unless that is empty. */
  lemma TagListSingle(cell: string)
    requires ',' !in cell
    ensures TagList(cell) == if Trim(cell) == "" then [] else [Trim(cell)]
  {
    SplitNoComma(cell);
    TrimAllSingle(cell);
    NonEmptySingle(Trim(cell));
  }

  lemma TrimAllSingle(piece: string)
    ensures TrimAll([piece]) == [Trim(piece)]
  {
    assert TrimAll([piece])[0] == Trim(piece);
  }

  lemma NonEmptySingle(piece: string)
    ensures NonEmpty([piece]) == if piece == "" then [] else [piece]
  {
    assert [piece][..0] == [];
  }

  /** The value stored under field `f` for a cell: `value ?? null`, with a `tags` string split first. */
  function FieldValue(f: Field, cell: Option<string>): (v: Value)
    ensures v == Null <==> cell.None?
    ensures v.TagArray? <==> f == Tags && cell.Some?
    ensures v.Text? ==> v.text == cell.value
  {
    match cell
    case None => Null
    case Some(text) => if f == Tags then TagArray(TagList(text)) else Text(text)
  }

  /** The keys of a record built with mapping `m`: `org_id` and every field with a truthy column. */
  function RecordKeys(m: seq<Entry>): set<Key> {
    {OrgId} + set f | f in AllFields && Find(m, f).Some? :: Column(f)
  }

  /**
   * The record that one row becomes: `{ org_id }`, then for each mapping
   * entry in key order, a falsy column is skipped and otherwise the field is
   * written with its cell.
   */
  function RecordOf(m: seq<Entry>, row: Row, org: string): (record: Record)
    ensures OrgId in record && record[OrgId] == Text(org)
    decreases |m|
  {
    if m == [] then map[OrgId := Text(org)]
    else
      var e := m[|m| - 1];
      var before := RecordOf(m[..|m| - 1], row, org);
      if Selected(e.column).None? then before
      else before[Column(e.field) := FieldValue(e.field, Cell(row, e.column.value))]
  }

  /** Reading the first `i + 1` entries of a mapping: entry `i` decides its own field and no other. */
  lemma FindSnoc(m: Mapping, i: nat)
    requires i < |m|
    ensures Find(m[..i + 1], m[i].field) == Selected(m[i].column)
    ensures Find(m[..i], m[i].field) == None
    ensures forall g :: g != m[i].field ==> Find(m[..i + 1], g) == Find(m[..i], g)
  {
    var before, after := m[..i], m[..i + 1];
    assert after[..i] == before;
    assert forall j :: 0 <= j < i ==> before[j].field != m[i].field;
  }

  /**
   * The record of a row, key by key: its keys are `org_id` and the fields
   * with a truthy column, and each field holds the value of that column's cell.
   */
  lemma {:induction false} RecordOfKeys(m: Mapping, row: Row, org: string)
    ensures RecordOf(m, row, org).Keys == RecordKeys(m)
    ensures RecordOf(m, row, org)[OrgId] == Text(org)
    ensures forall f :: Column(f) in RecordKeys(m) ==>
      RecordOf(m, row, org)[Column(f)] == FieldValue(f, Cell(row, Find(m, f).value))
    decreases |m|
  {
    if m != [] {
      var n := |m| - 1;
      var prefix: Mapping := m[..n];
      RecordOfKeys(prefix, row, org);
      FindSnoc(m, n);
      assert m[..n + 1] == m;
    }
  }

  /**
   * The callback of `rows.map(...)`: starts from `{ org_id }` and, for each
   * mapping entry in key order, skips a falsy column and otherwise writes the
   * cell (split into tags for `tags`, `null` when missing) under the field.
   */
  method BuildRecord(m: Mapping, row: Row, org: string) returns (record: Record)
    ensures record == RecordOf(m, row, org)
    ensures OrgId in record && record[OrgId] == Text(org)
    ensures forall f :: Column(f) in record <==> Find(m, f).Some?
    ensures forall f :: Column(f) in record && Find(m, f).value !in row ==> record[Column(f)] == Null
    ensures forall f :: Column(f) in record && Find(m, f).value in row ==>
      record[Column(f)] == if f == Tags then TagArray(TagList(row[Find(m, f).value])) else Text(row[Find(m, f).value])
  {
    record := map[OrgId := Text(org)];
    for i := 0 to |m|
      invariant record == RecordOf(m[..i], row, org)
    {
      assert m[..i + 1][..i] == m[..i];
      var field, column := m[i].field, m[i].column;
      if column.None? || column.value == "" {
        continue;
      }
      var value := Cell(row, column.value);
      var stored := if value.Some? then Text(value.value) else Null;
      if field == Tags && value.Some? {
        stored := TagArray(TagList(value.value));
      }
      record := record[Column(field) := stored];
    }
    assert m[..|m|] == m;
    RecordOfKeys(m, row, org);
  }

  /** `!!record.email`: a non-empty string is truthy, `null` is not, an array always is. */
  function HasEmail(record: Record): (truthy: bool)
    ensures truthy <==> Column(Email) in record && record[Column(Email)] != Null && record[Column(Email)] != Text("")
  {
    Column(Email) in record &&
    match record[Column(Email)]
    case Null => false
    case Text(s) => s != ""
    case TagArray(_) => true
  }

  /** A row's record keeps its email exactly when the email column is mapped and the row's cell there is non-empty. */
  lemma HasEmailIff(m: Mapping, row: Row, org: string)
    ensures HasEmail(RecordOf(m, row, org)) <==>
      Find(m, Email).Some? && Find(m, Email).value in row && row[Find(m, Email).value] != ""
  {
    RecordOfKeys(m, row, org);
    assert Column(Email) in RecordKeys(m) <==> Find(m, Email).Some?;
  }

  /** `.filter(r => !!r.email)`. */
  function WithEmail(records: seq<Record>): (kept: seq<Record>)
    ensures |kept| <= |records|
    ensures forall j :: 0 <= j < |kept| ==> HasEmail(kept[j])
  {
    if records == [] then []
    else
      var n := |records| - 1;
      WithEmail(records[..n]) + (if HasEmail(records[n]) then [records[n]] else [])
  }

  /** `rows.map(...)`. */
  function BuiltRecords(rows: seq<Row>, m: seq<Entry>, org: string): (records: seq<Record>)
    ensures |records| == |rows|
    ensures forall i :: 0 <= i < |rows| ==> records[i] == RecordOf(m, rows[i], org)
  {
    seq(|rows|, i requires 0 <= i < |rows| => RecordOf(m, rows[i], org))
  }

  /** Mapping one more row appends its record. */
  lemma BuiltRecordsSnoc(rows: seq<Row>, i: nat, m: seq<Entry>, org: string)
    requires i < |rows|
    ensures BuiltRecords(rows[..i + 1], m, org) == BuiltRecords(rows[..i], m, org) + [RecordOf(m, rows[i], org)]
  {
    var before, after := BuiltRecords(rows[..i], m, org), BuiltRecords(rows[..i + 1], m, org);
    assert forall j :: 0 <= j < i ==> after[j] == before[j];
  }

  /** The payload sent to the backend: the built records that have an email, in row order. */
  function Payload(rows: seq<Row>, m: seq<Entry>, org: string): (payload: seq<Record>)
    ensures |payload| <= |rows|
    ensures forall j :: 0 <= j < |payload| ==> HasEmail(payload[j])
  {
    WithEmail(BuiltRecords(rows, m, org))
  }

  /** What `.filter(r => !!r.email)` keeps of a record: the record itself, when its email is truthy. */
  function KeepWithEmail(record: Record): (r: Option<Record>)
    ensures r.Some? <==> HasEmail(record)
    ensures r.Some? ==> r.value == record
  {
    if HasEmail(record) then Some(record) else None
  }

  /**
   * The payload is an order-preserving selection of the rows' records:
   * exactly those with an email, in row order, each once.
   */
  lemma {:induction false} WithEmailSelects(records: seq<Record>) returns (idx: seq<nat>)
    ensures Selects(records, WithEmail(records), idx, KeepWithEmail)
  {
    if records == [] {
      idx := [];
    } else {
      var n := |records| - 1;
      var front := WithEmailSelects(records[..n]);
      if HasEmail(records[n]) {
        idx := SelectsKeep(records, WithEmail(records[..n]), front, KeepWithEmail);
      } else {
        idx := SelectsSkip(records, WithEmail(records[..n]), front, KeepWithEmail);
      }
    }
  }

  /** A record is kept exactly when it is one of the records and has an email. */
  lemma WithEmailMembers(records: seq<Record>)
    ensures forall r :: r in WithEmail(records) <==> r in records && HasEmail(r)
  {
    var kept := WithEmail(records);
    var idx := WithEmailSelects(records);
    forall r | r in records && HasEmail(r) ensures r in kept {
      var i :| 0 <= i < |records| && records[i] == r;
      var j :| 0 <= j < |idx| && idx[j] == i;
      assert KeepWithEmail(records[i]) == Some(kept[j]);
    }
  }

  /** Every payload record carries the organisation id and a non-empty email, and there are at most as many as rows. */
  lemma PayloadFacts(rows: seq<Row>, m: Mapping, org: string)
    ensures |Payload(rows, m, org)| <= |rows|
    ensures forall r :: r in Payload(rows, m, org) ==>
      OrgId in r && r[OrgId] == Text(org) && HasEmail(r) && r.Keys == RecordKeys(m)
  {
    var built := BuiltRecords(rows, m, org);
    WithEmailMembers(built);
    forall r | r in Payload(rows, m, org)
      ensures OrgId in r && r[OrgId] == Text(org) && r.Keys == RecordKeys(m)
    {
      var i :| 0 <= i < |built| && built[i] == r;
      RecordOfKeys(m, rows[i], org);
    }
  }

  /** Builds the payload: maps every row to its record, then keeps those with an email. */
  method BuildPayload(rows: seq<Row>, m: Mapping, org: string) returns (payload: seq<Record>)
    ensures payload == Payload(rows, m, org)
  {
    var built: seq<Record> := [];
    for i := 0 to |rows|
      invariant built == BuiltRecords(rows[..i], m, org)
    {
      var record := BuildRecord(m, rows[i], org);
      BuiltRecordsSnoc(rows, i, m, org);
      built := built + [record];
    }
    assert rows[..|rows|] == rows;
    payload := WithEmail(built);
  }

  /** The rows kept from the parser's output: `data.filter(Boolean)` drops the missing ones. */
  function ParsedRows(data: seq<Option<Row>>): (rows: seq<Row>)
    ensures |rows| <= |data|
    ensures forall r :: r in rows <==> Some(r) in data
  {
    if data == [] then []
    else
      var n := |data| - 1;
      assert data == data[..n] + [data[n]];
      ParsedRows(data[..n]) + (if data[n].Some? then [data[n].value] else [])
  }

  /** What `filter(Boolean)` keeps of the parser's output: a row that is there. */
  function KeepPresent(row: Option<Row>): Option<Row> {
    row
  }

  /** `ParsedRows` keeps exactly the rows that are there, in the parser's order, each once. */
  lemma {:induction false} ParsedRowsSelects(data: seq<Option<Row>>) returns (idx: seq<nat>)
    ensures Selects(data, ParsedRows(data), idx, KeepPresent)
  {
    if data == [] {
      idx := [];
    } else {
      var n := |data| - 1;
      var front := ParsedRowsSelects(data[..n]);
      if data[n].Some? {
        idx := SelectsKeep(data, ParsedRows(data[..n]), front, KeepPresent);
      } else {
        idx := SelectsSkip(data, ParsedRows(data[..n]), front, KeepPresent);
      }
    }
  }
}
