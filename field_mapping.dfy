/**
 * The mapping from the fixed destination fields of a prospect to CSV column
 * names, as the import form edits it.
 *
 * The mapping is a JavaScript object: its keys keep the order in which they
 * were first set, and clearing a field stores `undefined` under its key rather
 * than deleting it. It is modelled as a list of entries with distinct fields;
 * `column == None` is a key holding `undefined`.
 */
module FieldMapping {
  import opened Wrappers

  /** The destination fields, in the order the form lists them. */
  datatype Field = Email | Company | ContactName | Phone | City | State | Website | Tags

  const AllFields: set<Field> := {Email, Company, ContactName, Phone, City, State, Website, Tags}

  datatype Entry = Entry(field: Field, column: Option<string>)

  predicate DistinctFields(entries: seq<Entry>) {
    forall i, j :: 0 <= i < j < |entries| ==> entries[i].field != entries[j].field
  }

  /** Object keys are unique, so no field has two entries. */
  type Mapping = entries: seq<Entry> | DistinctFields(entries) witness []

  /** A stored selection counts only when it is truthy: `undefined` and `""` both mean "not mapped". */
  function Selected(column: Option<string>): (r: Option<string>)
    ensures r.Some? <==> column.Some? && column.value != ""
    ensures r.Some? ==> r == column
  {
    if column.Some? && column.value != "" then column else None
  }

  /**
   * `mapping[f]` read as a truthy column name: the column selected for `f`,
   * or `None` when `f` has no entry or its entry holds `undefined` or `""`.
   */
  function Find(entries: seq<Entry>, f: Field): (r: Option<string>)
    ensures r.Some? ==> r.value != ""
    ensures (forall i :: 0 <= i < |entries| ==> entries[i].field != f) ==> r == None
  {
    if entries == [] then None
    else if entries[|entries| - 1].field == f then Selected(entries[|entries| - 1].column)
    else Find(entries[..|entries| - 1], f)
  }

  /** In a mapping, `Find` reads the one entry that holds the field. */
  lemma {:induction false} FindAt(m: Mapping, i: nat)
    requires i < |m|
    ensures Find(m, m[i].field) == Selected(m[i].column)
  {
    var n := |m| - 1;
    if i < n {
      var prefix: Mapping := m[..n];
      assert prefix[i] == m[i];
      FindAt(prefix, i);
    }
  }

  predicate HasField(entries: seq<Entry>, f: Field) {
    exists i :: 0 <= i < |entries| && entries[i].field == f
  }

  /**
   * `updateMapping(f, selection)`, i.e. `{ ...m, [f]: selection || undefined }`:
   * an existing key keeps its place and takes the new value, a new key goes last.
   */
  function UpdateMapping(m: Mapping, f: Field, selection: string): (m': Mapping)
    ensures Find(m', f) == (if selection == "" then None else Some(selection))
    ensures forall g :: g != f ==> Find(m', g) == Find(m, g)
    ensures |m| <= |m'| && forall i :: 0 <= i < |m| ==> m'[i].field == m[i].field
    ensures HasField(m', f) && |m'| == if HasField(m, f) then |m| else |m| + 1
  {
    var stored := if selection == "" then None else Some(selection);
    var m': seq<Entry> :=
      if HasField(m, f) then seq(|m|, i requires 0 <= i < |m| => if m[i].field == f then Entry(f, stored) else m[i])
      else m + [Entry(f, stored)];
    assert DistinctFields(m');
    FindAfterUpdate(m, m', f, stored);
    m'
  }

  /** What `Find` sees after `UpdateMapping` has built its new entry list. */
  lemma FindAfterUpdate(m: Mapping, m': Mapping, f: Field, stored: Option<string>)
    requires HasField(m, f) ==>
      m' == seq(|m|, i requires 0 <= i < |m| => if m[i].field == f then Entry(f, stored) else m[i])
    requires !HasField(m, f) ==> m' == m + [Entry(f, stored)]
    ensures Find(m', f) == Selected(stored)
    ensures forall g :: g != f ==> Find(m', g) == Find(m, g)
  {
    if HasField(m, f) {
      var k :| 0 <= k < |m| && m[k].field == f;
      FindAt(m', k);
    } else {
      FindAt(m', |m|);
    }
    forall g | g != f ensures Find(m', g) == Find(m, g) {
      if i :| 0 <= i < |m| && m[i].field == g {
        FindAt(m, i);
        FindAt(m', i);
      } else {
        assert forall i :: 0 <= i < |m'| ==> m'[i].field != g;
      }
    }
  }
}
