/** Contact records and the list operations of the contact book as pure
    functions over the list: lookup by id, the search filter, delete,
    update, import of table rows and export to table rows. The class in
    `Book` runs these step by step on its `contacts` field. */
module Records {
  import opened Text

  datatype Option<T> = None | Some(value: T)

  /** One entry of the `contacts` list (a dict with these five keys). */
  datatype Contact = Contact(id: string, name: string, phone: string, email: string, address: string)

  /** The four values a form or a table row supplies; everything but the id. */
  datatype Fields = Fields(name: string, phone: string, email: string, address: string)

  /** The stripped values that add, update and import store. */
  function StrippedFields(name: string, phone: string, email: string, address: string): Fields {
    Fields(Strip(name), Strip(phone), Strip(email), Strip(address))
  }

  /** A record with id `id` holding `f`. */
  function WithFields(id: string, f: Fields): Contact {
    Contact(id, f.name, f.phone, f.email, f.address)
  }

  // ---------------------------------------------------------------------
  // Invariants of the list

  ghost predicate HasId(cs: seq<Contact>, id: string) {
    exists i :: 0 <= i < |cs| && cs[i].id == id
  }

  ghost predicate UniqueIds(cs: seq<Contact>) {
    forall i, j :: 0 <= i < j < |cs| ==> cs[i].id != cs[j].id
  }

  /** Field values as the program writes them: all stripped, name non-empty. */
  ghost predicate WellStoredFields(f: Fields) {
    f.name != [] && IsStripped(f.name) && IsStripped(f.phone) &&
    IsStripped(f.email) && IsStripped(f.address)
  }

  ghost predicate WellStored(c: Contact) {
    WellStoredFields(Fields(c.name, c.phone, c.email, c.address))
  }

  /** Unique ids, and every record as add, update and import write it. */
  ghost predicate WellFormed(cs: seq<Contact>) {
    UniqueIds(cs) && forall i :: 0 <= i < |cs| ==> WellStored(cs[i])
  }

  /** Stripped fields with a non-blank name are stored well. */
  lemma StrippedFieldsWellStored(name: string, phone: string, email: string, address: string)
    requires !AllSpace(name)
    ensures WellStoredFields(StrippedFields(name, phone, email, address))
  {
  }

  /** `a` is `b` with some records left out, the rest in their order. */
  ghost predicate IsSubsequence(a: seq<Contact>, b: seq<Contact>)
    decreases |b|
  {
    a == [] ||
    (b != [] &&
     ((a[|a| - 1] == b[|b| - 1] && IsSubsequence(a[..|a| - 1], b[..|b| - 1])) ||
      IsSubsequence(a, b[..|b| - 1])))
  }

  lemma {:induction false} SubsequenceMembers(a: seq<Contact>, b: seq<Contact>)
    requires IsSubsequence(a, b)
    ensures |a| <= |b|
    ensures forall x :: x in a ==> x in b
    decreases |b|
  {
    if a != [] {
      var a', b' := a[..|a| - 1], b[..|b| - 1];
      if a[|a| - 1] == b[|b| - 1] && IsSubsequence(a', b') {
        SubsequenceMembers(a', b');
        assert a == a' + [a[|a| - 1]];
        assert b == b' + [b[|b| - 1]];
      } else {
        SubsequenceMembers(a, b');
        assert b == b' + [b[|b| - 1]];
      }
    }
  }

  /** Leaving records out keeps the list well formed. */
  lemma {:induction false} SubsequenceWellFormed(a: seq<Contact>, b: seq<Contact>)
    requires IsSubsequence(a, b) && WellFormed(b)
    ensures WellFormed(a)
    decreases |b|
  {
    if a != [] {
      var a', b' := a[..|a| - 1], b[..|b| - 1];
      assert WellFormed(b');
      if a[|a| - 1] == b[|b| - 1] && IsSubsequence(a', b') {
        SubsequenceWellFormed(a', b');
        SubsequenceMembers(a', b');
        forall i | 0 <= i < |a'| ensures a'[i].id != a[|a| - 1].id {
          assert a'[i] in b';
        }
        assert a == a' + [a[|a| - 1]];
      } else {
        SubsequenceWellFormed(a, b');
      }
    }
  }

  // ---------------------------------------------------------------------
  // Lookup by id: next((c for c in contacts if c["id"] == sid), None)

  /** Position of the first record with id `id`. */
  function FindIndex(cs: seq<Contact>, id: string): (r: Option<nat>)
    ensures r.None? <==> !HasId(cs, id)
    ensures r.Some? ==> r.value < |cs| && cs[r.value].id == id
    ensures r.Some? ==> forall k :: 0 <= k < r.value ==> cs[k].id != id
  {
    if cs == [] then None
    else if cs[0].id == id then Some(0)
    else
      match FindIndex(cs[1..], id)
      case None =>
        assert forall i :: 1 <= i < |cs| ==> cs[i] == cs[1..][i - 1];
        None
      case Some(k) =>
        assert cs[1..][k] == cs[k + 1];
        assert forall i :: 1 <= i <= k ==> cs[i] == cs[1..][i - 1];
        Some(k + 1)
  }

  /** The record `populate_form` and `copy_email` look up. */
  function Lookup(cs: seq<Contact>, id: string): (r: Option<Contact>)
    ensures r.None? <==> !HasId(cs, id)
    ensures r.Some? ==> r.value.id == id
    ensures r.Some? ==> exists i :: 0 <= i < |cs| && cs[i] == r.value && forall k :: 0 <= k < i ==> cs[k].id != id
    ensures UniqueIds(cs) ==> forall i :: 0 <= i < |cs| && cs[i].id == id ==> r == Some(cs[i])
  {
    match FindIndex(cs, id)
    case None => None
    case Some(i) => Some(cs[i])
  }

  /** `copy_email`: with a selection, the email of the selected record when
      that record exists and its email is not empty. */
  function EmailToCopy(cs: seq<Contact>, sid: string): (r: Option<string>)
    ensures r.Some? <==> sid != [] && HasId(cs, sid) && Lookup(cs, sid).value.email != []
    ensures r.Some? ==> exists i :: 0 <= i < |cs| && cs[i].id == sid && cs[i].email == r.value &&
                                    (forall k :: 0 <= k < i ==> cs[k].id != sid)
  {
    if sid == [] then None
    else match Lookup(cs, sid)
      case None => None
      case Some(c) => if c.email != [] then Some(c.email) else None
  }

  // ---------------------------------------------------------------------
  // Search: the filter of refresh_list

  /** The text a query is matched against: the four fields joined by spaces. */
  function Haystack(c: Contact): string {
    c.name + " " + c.phone + " " + c.email + " " + c.address
  }

  /** A normalised query `q` (stripped and lower-cased) is a substring of the
      lower-cased haystack. */
  predicate Matches(c: Contact, q: string) {
    Contains(Lower(Haystack(c)), q)
  }

  /** The records shown for the normalised query `q`, in list order. */
  function Select(cs: seq<Contact>, q: string): (r: seq<Contact>)
    ensures IsSubsequence(r, cs)
    ensures forall c :: c in r <==> c in cs && Matches(c, q)
  {
    if cs == [] then []
    else
      var init, last := cs[..|cs| - 1], cs[|cs| - 1];
      var r' := Select(init, q);
      assert cs == init + [last];
      if Matches(last, q) then
        assert (r' + [last])[..|r'|] == r';
        r' + [last]
      else r'
  }

  /** Every copy of a matching record is shown, and none of the others:
      with the subsequence property this pins the result down even when the
      list holds equal records. */
  lemma {:induction false} SelectCounts(cs: seq<Contact>, q: string, c: Contact)
    ensures multiset(Select(cs, q))[c] == if Matches(c, q) then multiset(cs)[c] else 0
  {
    if cs != [] {
      var init, last := cs[..|cs| - 1], cs[|cs| - 1];
      SelectCounts(init, q, c);
      assert cs == init + [last];
    }
  }

  /** `refresh_list` normalises the query as `strip().lower()`. */
  function SearchQuery(raw: string): string {
    Lower(Strip(raw))
  }

  /** The empty query matches every record. */
  lemma EmptyQueryMatches(c: Contact)
    ensures Matches(c, [])
  {
    assert OccursAt([], Lower(Haystack(c)), 0);
  }

  lemma {:induction false} SelectEmptyQuery(cs: seq<Contact>)
    ensures Select(cs, []) == cs
  {
    if cs != [] {
      var init, last := cs[..|cs| - 1], cs[|cs| - 1];
      SelectEmptyQuery(init);
      EmptyQueryMatches(last);
      assert cs == init + [last];
    }
  }

  /** A blank search box shows every record, in order. */
  lemma BlankQueryShowsAll(cs: seq<Contact>, raw: string)
    requires AllSpace(raw)
    ensures Select(cs, SearchQuery(raw)) == cs
  {
    assert SearchQuery(raw) == [];
    SelectEmptyQuery(cs);
  }

  // ---------------------------------------------------------------------
  // Delete: [x for x in contacts if x["id"] != sid]

  /** The records whose id differs from `sid`, in list order. */
  function RemoveId(cs: seq<Contact>, sid: string): (r: seq<Contact>)
    ensures IsSubsequence(r, cs)
    ensures forall c :: c in r <==> c in cs && c.id != sid
  {
    if cs == [] then []
    else
      var init, last := cs[..|cs| - 1], cs[|cs| - 1];
      var r' := RemoveId(init, sid);
      assert cs == init + [last];
      if last.id != sid then
        assert (r' + [last])[..|r'|] == r';
        r' + [last]
      else r'
  }

  /** Every copy of a record with another id is kept, and none with `sid`. */
  lemma {:induction false} RemoveIdCounts(cs: seq<Contact>, sid: string, c: Contact)
    ensures multiset(RemoveId(cs, sid))[c] == if c.id != sid then multiset(cs)[c] else 0
  {
    if cs != [] {
      var init, last := cs[..|cs| - 1], cs[|cs| - 1];
      RemoveIdCounts(init, sid, c);
      assert cs == init + [last];
    }
  }

  /** Deleting an id nobody has changes nothing. */
  lemma {:induction false} RemoveAbsentId(cs: seq<Contact>, sid: string)
    requires !HasId(cs, sid)
    ensures RemoveId(cs, sid) == cs
  {
    if cs != [] {
      RemoveAbsentId(cs[..|cs| - 1], sid);
      assert cs == cs[..|cs| - 1] + [cs[|cs| - 1]];
    }
  }

  /** With unique ids, deleting a present id removes exactly one record. */
  lemma {:induction false} RemovePresentId(cs: seq<Contact>, sid: string)
    requires UniqueIds(cs) && HasId(cs, sid)
    ensures |RemoveId(cs, sid)| == |cs| - 1
    ensures !HasId(RemoveId(cs, sid), sid)
  {
    var init, last := cs[..|cs| - 1], cs[|cs| - 1];
    if last.id == sid {
      RemoveAbsentId(init, sid);
    } else {
      var i :| 0 <= i < |cs| && cs[i].id == sid;
      assert init[i].id == sid;
      RemovePresentId(init, sid);
    }
  }

  /** Deleting keeps the list well formed. */
  lemma RemoveKeepsWellFormed(cs: seq<Contact>, sid: string)
    requires WellFormed(cs)
    ensures WellFormed(RemoveId(cs, sid))
  {
    SubsequenceWellFormed(RemoveId(cs, sid), cs);
  }

  // ---------------------------------------------------------------------
  // Update: the for/break loop of add_or_save

  /** The list with the first record whose id is `sid` given the values `f`;
      the list itself when no record has that id. */
  function UpdateFirst(cs: seq<Contact>, sid: string, f: Fields): (r: seq<Contact>)
    ensures |r| == |cs|
    ensures FindIndex(cs, sid).None? ==> r == cs
    ensures FindIndex(cs, sid).Some? ==>
      var i := FindIndex(cs, sid).value;
      r == cs[i := WithFields(sid, f)]
  {
    if cs == [] then []
    else if cs[0].id == sid then [WithFields(sid, f)] + cs[1..]
    else
      var r' := UpdateFirst(cs[1..], sid, f);
      assert FindIndex(cs, sid) ==
        match FindIndex(cs[1..], sid) case None => None case Some(k) => Some(k + 1);
      [cs[0]] + r'
  }

  /** An update keeps every id in place and, with well-stored values, keeps
      the list well formed. */
  lemma UpdateKeepsWellFormed(cs: seq<Contact>, sid: string, f: Fields)
    requires WellFormed(cs) && WellStoredFields(f)
    ensures forall i :: 0 <= i < |cs| ==> UpdateFirst(cs, sid, f)[i].id == cs[i].id
    ensures WellFormed(UpdateFirst(cs, sid, f))
  {
  }

  // ---------------------------------------------------------------------
  // Add

  /** Appending a record with a fresh id and well-stored values keeps the
      list well formed. */
  lemma AppendKeepsWellFormed(cs: seq<Contact>, c: Contact)
    requires WellFormed(cs) && WellStored(c) && !HasId(cs, c.id)
    ensures WellFormed(cs + [c])
  {
    var r := cs + [c];
    forall i, j | 0 <= i < j < |r| ensures r[i].id != r[j].id {
      if j == |cs| { assert r[i] == cs[i]; }
    }
  }

  // ---------------------------------------------------------------------
  // Export: the rows export_csv writes

  const Header: seq<string> := ["Name", "Phone", "Email", "Address"]

  function Row(c: Contact): seq<string> {
    [c.name, c.phone, c.email, c.address]
  }

  /** One row per record, in list order. */
  function ContactRows(cs: seq<Contact>): (rows: seq<seq<string>>)
    ensures |rows| == |cs|
    ensures forall i :: 0 <= i < |cs| ==> rows[i] == Row(cs[i])
  {
    if cs == [] then [] else ContactRows(cs[..|cs| - 1]) + [Row(cs[|cs| - 1])]
  }

  datatype Exported = NothingToExport | Table(rows: seq<seq<string>>)

  /** `export_csv` refuses an empty list; otherwise a header row and then
      one row per record. */
  function ExportTable(cs: seq<Contact>): (r: Exported)
    ensures r.NothingToExport? <==> cs == []
    ensures r.Table? ==> |r.rows| == |cs| + 1 && r.rows[0] == Header
    ensures r.Table? ==> forall i :: 0 <= i < |cs| ==> r.rows[i + 1] == Row(cs[i])
  {
    if cs == [] then NothingToExport else Table([Header] + ContactRows(cs))
  }

  // ---------------------------------------------------------------------
  // Import: the row loop of import_csv

  /** `(row + ["", "", "", ""])[:4]`. */
  function PadRow(row: seq<string>): (r: seq<string>)
    ensures |r| == 4
    ensures forall k :: 0 <= k < 4 ==> r[k] == if k < |row| then row[k] else ""
  {
    (row + ["", "", "", ""])[..4]
  }

  /** Some record has exactly this (name, phone, email). */
  predicate HasKey(cs: seq<Contact>, name: string, phone: string, email: string) {
    exists i :: 0 <= i < |cs| && cs[i].name == name && cs[i].phone == phone && cs[i].email == email
  }

  /** One iteration: empty rows and blank names are skipped, so is a row
      whose raw (unstripped) name, phone and email equal a record's;
      otherwise a record with id `id` and the stripped values is appended. */
  function ImportRow(cs: seq<Contact>, row: seq<string>, id: string): (r: seq<Contact>)
    ensures r == cs || (|r| == |cs| + 1 && r[..|cs|] == cs && r[|cs|].id == id && WellStored(r[|cs|]))
  {
    if row == [] then cs
    else
      var p := PadRow(row);
      if Strip(p[0]) == [] || HasKey(cs, p[0], p[1], p[2]) then cs
      else
        StrippedFieldsWellStored(p[0], p[1], p[2], p[3]);
        cs + [WithFields(id, StrippedFields(p[0], p[1], p[2], p[3]))]
  }

  /** The data rows processed in order, row `j` drawing the fresh id
      `ids[j]`; each row sees the records appended before it. */
  function ImportRows(cs: seq<Contact>, rows: seq<seq<string>>, ids: seq<string>): (r: seq<Contact>)
    requires |rows| <= |ids|
    ensures |cs| <= |r| <= |cs| + |rows|
    ensures r[..|cs|] == cs
    ensures forall k :: |cs| <= k < |r| ==> WellStored(r[k]) && r[k].id in ids[..|rows|]
  {
    if rows == [] then cs
    else
      var n := |rows| - 1;
      var r' := ImportRows(cs, rows[..n], ids);
      var r := ImportRow(r', rows[n], ids[n]);
      assert ids[..n] <= ids[..n + 1];
      assert r[..|r'|] == r';
      r
  }

  /** The first row is the header and is discarded; the rest are data. */
  function ImportTable(cs: seq<Contact>, table: seq<seq<string>>, ids: seq<string>): seq<Contact>
    requires |table| <= |ids|
  {
    if table == [] then cs else ImportRows(cs, table[1..], ids)
  }

  ghost predicate DistinctFresh(cs: seq<Contact>, ids: seq<string>) {
    (forall i, j :: 0 <= i < j < |ids| ==> ids[i] != ids[j]) &&
    (forall j :: 0 <= j < |ids| ==> !HasId(cs, ids[j]))
  }

  /** The id of row `n` is not yet in the list built from the rows before it. */
  lemma FreshIdUnused(cs: seq<Contact>, r: seq<Contact>, ids: seq<string>, n: nat)
    requires n < |ids| && DistinctFresh(cs, ids)
    requires |cs| <= |r| && r[..|cs|] == cs
    requires forall k :: |cs| <= k < |r| ==> r[k].id in ids[..n]
    ensures !HasId(r, ids[n])
  {
    forall k | 0 <= k < |r| ensures r[k].id != ids[n] {
      if k < |cs| {
        assert r[k] == cs[k];
      } else {
        var j :| 0 <= j < n && ids[..n][j] == r[k].id;
        assert ids[j] == r[k].id;
      }
    }
  }

  /** With fresh, distinct ids an import keeps the list well formed. */
  lemma {:induction false} ImportKeepsWellFormed(cs: seq<Contact>, rows: seq<seq<string>>, ids: seq<string>)
    requires |rows| <= |ids| && WellFormed(cs) && DistinctFresh(cs, ids)
    ensures WellFormed(ImportRows(cs, rows, ids))
  {
    if rows != [] {
      var n := |rows| - 1;
      var r' := ImportRows(cs, rows[..n], ids);
      ImportKeepsWellFormed(cs, rows[..n], ids);
      var r := ImportRow(r', rows[n], ids[n]);
      assert r == ImportRows(cs, rows, ids);
      if r != r' {
        var c := r[|r'|];
        assert r == r' + [c];
        FreshIdUnused(cs, r', ids, n);
        AppendKeepsWellFormed(r', c);
      }
    }
  }

  /** A key present before a row is processed is present after it. */
  lemma ImportRowKeepsKeys(cs: seq<Contact>, row: seq<string>, id: string, name: string, phone: string, email: string)
    requires HasKey(cs, name, phone, email)
    ensures HasKey(ImportRow(cs, row, id), name, phone, email)
  {
    var r := ImportRow(cs, row, id);
    var i :| 0 <= i < |cs| && cs[i].name == name && cs[i].phone == phone && cs[i].email == email;
    assert r[i] == r[..|cs|][i];
  }

  /** A row with a non-blank, already stripped key has that key in the list
      once it is processed. */
  lemma ImportRowCoversKey(cs: seq<Contact>, row: seq<string>, id: string)
    requires row != []
    requires var p := PadRow(row);
      !AllSpace(p[0]) && IsStripped(p[0]) && IsStripped(p[1]) && IsStripped(p[2])
    ensures var p := PadRow(row);
      HasKey(ImportRow(cs, row, id), p[0], p[1], p[2])
  {
    var p := PadRow(row);
    if !HasKey(cs, p[0], p[1], p[2]) {
      var r := ImportRow(cs, row, id);
      assert r == cs + [WithFields(id, StrippedFields(p[0], p[1], p[2], p[3]))];
      assert r[|cs|].name == p[0] && r[|cs|].phone == p[1] && r[|cs|].email == p[2];
    }
  }

  /** Every data row with a non-blank, already stripped name, phone and email
      has its key in the list afterwards: it was either appended or already
      present. */
  lemma {:induction false} ImportCoversRows(cs: seq<Contact>, rows: seq<seq<string>>, ids: seq<string>, j: nat)
    requires |rows| <= |ids| && j < |rows| && rows[j] != []
    requires var p := PadRow(rows[j]);
      !AllSpace(p[0]) && IsStripped(p[0]) && IsStripped(p[1]) && IsStripped(p[2])
    ensures var p := PadRow(rows[j]);
      HasKey(ImportRows(cs, rows, ids), p[0], p[1], p[2])
    decreases |rows|
  {
    var n := |rows| - 1;
    var r' := ImportRows(cs, rows[..n], ids);
    assert ImportRow(r', rows[n], ids[n]) == ImportRows(cs, rows, ids);
    var p := PadRow(rows[j]);
    if j < n {
      assert rows[..n][j] == rows[j];
      ImportCoversRows(cs, rows[..n], ids, j);
      ImportRowKeepsKeys(r', rows[n], ids[n], p[0], p[1], p[2]);
    } else {
      ImportRowCoversKey(r', rows[n], ids[n]);
    }
  }

  /** The rule of one import step: the row is skipped exactly when it is
      empty, its name is blank, or its raw (name, phone, email) is already a
      record's key; otherwise the record with id `id` and the stripped
      values is appended. */
  lemma ImportRowRule(cs: seq<Contact>, row: seq<string>, id: string)
    ensures var p := PadRow(row);
      ImportRow(cs, row, id) == cs <==> row == [] || AllSpace(p[0]) || HasKey(cs, p[0], p[1], p[2])
    ensures var p := PadRow(row);
      ImportRow(cs, row, id) != cs ==>
        ImportRow(cs, row, id) == cs + [Contact(id, Strip(p[0]), Strip(p[1]), Strip(p[2]), Strip(p[3]))]
  {
    var p := PadRow(row);
    if !(row == [] || AllSpace(p[0]) || HasKey(cs, p[0], p[1], p[2])) {
      assert |ImportRow(cs, row, id)| == |cs| + 1;
    }
  }

  /** Deduplication inside an import: a data row whose raw key is already in
      the list built so far, whether it was there before the import or was
      appended by an earlier row, adds nothing. */
  lemma ImportRowsSkipsKnownKey(cs: seq<Contact>, rows: seq<seq<string>>, ids: seq<string>, j: nat)
    requires |rows| <= |ids| && j < |rows|
    requires var p := PadRow(rows[j]);
      HasKey(ImportRows(cs, rows[..j], ids), p[0], p[1], p[2])
    ensures ImportRows(cs, rows[..j + 1], ids) == ImportRows(cs, rows[..j], ids)
  {
    assert rows[..j + 1][..j] == rows[..j];
    assert rows[..j + 1][j] == rows[j];
    ImportRowRule(ImportRows(cs, rows[..j], ids), rows[j], ids[j]);
  }

  /** A later data row repeating the already stripped, non-blank key of an
      earlier one is skipped. */
  lemma ImportRowsSkipsRepeatedRow(cs: seq<Contact>, rows: seq<seq<string>>, ids: seq<string>, i: nat, j: nat)
    requires |rows| <= |ids| && i < j < |rows| && rows[i] != []
    requires var p := PadRow(rows[i]);
      !AllSpace(p[0]) && IsStripped(p[0]) && IsStripped(p[1]) && IsStripped(p[2])
    requires PadRow(rows[j])[..3] == PadRow(rows[i])[..3]
    ensures ImportRows(cs, rows[..j + 1], ids) == ImportRows(cs, rows[..j], ids)
  {
    var p, q := PadRow(rows[i]), PadRow(rows[j]);
    assert rows[..j][i] == rows[i];
    ImportCoversRows(cs, rows[..j], ids, i);
    assert q[0] == p[0] && q[1] == p[1] && q[2] == p[2] by {
      assert q[..3][0] == q[0] && q[..3][1] == q[1] && q[..3][2] == q[2];
    }
    ImportRowsSkipsKnownKey(cs, rows, ids, j);
  }

  /** Distinct (name, phone, email) keys. */
  ghost predicate DistinctKeys(cs: seq<Contact>) {
    forall i, j :: 0 <= i < j < |cs| ==>
      (cs[i].name, cs[i].phone, cs[i].email) != (cs[j].name, cs[j].phone, cs[j].email)
  }

  /** The records `cs` under the ids `ids`, otherwise unchanged. */
  ghost predicate Reassigned(r: seq<Contact>, cs: seq<Contact>, ids: seq<string>) {
    |r| == |cs| <= |ids| && forall i :: 0 <= i < |cs| ==> r[i] == cs[i].(id := ids[i])
  }

  /** A row exported from a well-stored record whose key is not yet present
      is imported as that record under the new id. */
  lemma ImportExportedRow(cs: seq<Contact>, c: Contact, id: string)
    requires WellStored(c) && !HasKey(cs, c.name, c.phone, c.email)
    ensures ImportRow(cs, Row(c), id) == cs + [c.(id := id)]
  {
    assert PadRow(Row(c)) == Row(c);
  }

  /** A key not among `cs` is not among `cs` under new ids either. */
  lemma ReassignedKeys(r: seq<Contact>, cs: seq<Contact>, ids: seq<string>, c: Contact)
    requires Reassigned(r, cs, ids)
    requires forall i :: 0 <= i < |cs| ==> (cs[i].name, cs[i].phone, cs[i].email) != (c.name, c.phone, c.email)
    ensures !HasKey(r, c.name, c.phone, c.email)
  {
  }

  lemma {:induction false} ImportContactRows(cs: seq<Contact>, ids: seq<string>)
    requires |cs| <= |ids|
    requires forall i :: 0 <= i < |cs| ==> WellStored(cs[i])
    requires DistinctKeys(cs)
    ensures Reassigned(ImportRows([], ContactRows(cs), ids), cs, ids)
  {
    if cs != [] {
      var n := |cs| - 1;
      var init, c := cs[..n], cs[n];
      var rows := ContactRows(cs);
      assert rows[..n] == ContactRows(init);
      ImportContactRows(init, ids);
      var r' := ImportRows([], rows[..n], ids);
      ReassignedKeys(r', init, ids, c);
      ImportExportedRow(r', c, ids[n]);
      var r := ImportRows([], rows, ids);
      assert r == r' + [c.(id := ids[n])];
    }
  }

  /** Importing an exported table into an empty list gives back the same
      records in the same order, each under a new id, when the records are
      stored as the program stores them and no two share a key. */
  lemma ExportImportRoundTrip(cs: seq<Contact>, ids: seq<string>)
    requires cs != [] && |cs| + 1 <= |ids|
    requires forall i :: 0 <= i < |cs| ==> WellStored(cs[i])
    requires DistinctKeys(cs)
    ensures Reassigned(ImportTable([], ExportTable(cs).rows, ids), cs, ids)
  {
    ImportContactRows(cs, ids);
    assert ExportTable(cs).rows[1..] == ContactRows(cs);
  }

  /** The duplicate check compares the raw row with stored, stripped
      values: a row differing from a record only by surrounding spaces is
      not a duplicate, and the import appends a second record with the same
      stored name, phone and email. */
  lemma StripAdaSpace()
    ensures Strip("Ada ") == "Ada"
  {
    assert LeadingSpaces("Ada ") == 0;
    assert TrailingSpaces("Ada ") == 1;
    assert "Ada "[0..3] == "Ada";
  }

  lemma PaddedRowIsNotDuplicate()
    ensures var cs := [Contact("a", "Ada", "", "", "")];
      var r := ImportRows(cs, [["Ada ", "", ""]], ["b"]);
      |r| == 2 && r[1] == Contact("b", "Ada", "", "", "")
  {
    var cs := [Contact("a", "Ada", "", "", "")];
    var row := ["Ada ", "", ""];
    var p := PadRow(row);
    assert p == ["Ada ", "", "", ""];
    assert p[0] != cs[0].name by { assert |p[0]| != |cs[0].name|; }
    assert !HasKey(cs, p[0], p[1], p[2]);
    StripAdaSpace();
    assert Strip("") == "";
    assert ImportRow(cs, row, "b") == cs + [Contact("b", "Ada", "", "", "")];
    assert [row][..0] == [];
    assert ImportRows(cs, [row], ["b"]) == ImportRow(cs, row, "b");
  }
}
