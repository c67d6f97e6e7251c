/** The contact book as the program runs it: one list of records that the
    form actions and the import change in place. Each method is proved to
    leave the list the pure function in `Records` describes. */
module Book {
  import opened Text
  import opened Validation
  import opened Records

  /** What the start-up read of the data file found. */
  datatype SavedFile = Missing | Unreadable | Loaded(records: seq<Contact>)

  /** Result of pressing Add/Save. */
  datatype SaveOutcome = Rejected(reason: Verdict) | Updated | Added

  /** Result of pressing Delete. */
  datatype DeleteOutcome = NothingSelected | UnknownId | Declined | Deleted

  /** Result of an import: `ImportFailed` when reading the table raised. */
  datatype ImportOutcome = Imported | ImportFailed

  class ContactBook {
    var contacts: seq<Contact>

    /** `contacts = load_contacts()`: a missing or unreadable file gives an
        empty list. */
    constructor (file: SavedFile)
      ensures contacts == (if file.Loaded? then file.records else [])
    {
      contacts := if file.Loaded? then file.records else [];
    }

    /** The records `refresh_list` shows for the search box text `query`. */
    method Refresh(query: string) returns (shown: seq<Contact>)
      ensures shown == Select(contacts, SearchQuery(query))
    {
      var q := Lower(Strip(query));
      shown := [];
      var i := 0;
      while i < |contacts|
        invariant 0 <= i <= |contacts|
        invariant shown == Select(contacts[..i], q)
      {
        var c := contacts[i];
        assert contacts[..i + 1][..i] == contacts[..i];
        if Contains(Lower(Haystack(c)), q) {
          shown := shown + [c];
        }
        i := i + 1;
      }
      assert contacts[..i] == contacts;
    }

    /** The update branch of `add_or_save`: the loop that rewrites the first
        record with id `sid` and stops. */
    method UpdateSelected(sid: string, f: Fields)
      modifies this
      ensures contacts == UpdateFirst(old(contacts), sid, f)
    {
      var i := 0;
      while i < |contacts|
        invariant 0 <= i <= |contacts|
        invariant contacts == old(contacts)
        invariant forall k :: 0 <= k < i ==> contacts[k].id != sid
      {
        if contacts[i].id == sid {
          contacts := contacts[i := WithFields(sid, f)];
          break;
        }
        i := i + 1;
      }
    }

    /** `add_or_save`: validate the form, then update the selected record
        (`sid` not empty) or append a new record with id `freshId`. The
        address comes from the text box and is stripped first. */
    method AddOrSave(name: string, phone: string, email: string, addressText: string,
                     sid: string, freshId: string) returns (outcome: SaveOutcome)
      modifies this
      ensures var v := ValidateFields(name, phone, email);
        outcome == if v != Accepted then Rejected(v) else if sid != [] then Updated else Added
      ensures outcome.Rejected? ==> contacts == old(contacts)
      ensures outcome == Updated ==>
        contacts == UpdateFirst(old(contacts), sid, StrippedFields(name, phone, email, addressText))
      ensures outcome == Added ==>
        contacts == old(contacts) + [WithFields(freshId, StrippedFields(name, phone, email, addressText))]
      ensures WellFormed(old(contacts)) && !HasId(old(contacts), freshId) ==> WellFormed(contacts)
    {
      var address := Strip(addressText);
      var v := ValidateFields(name, phone, email);
      if v != Accepted {
        return Rejected(v);
      }
      var f := Fields(Strip(name), Strip(phone), Strip(email), address);
      assert WellStoredFields(f);
      if sid != [] {
        ghost var before := contacts;
        UpdateSelected(sid, f);
        if WellFormed(before) { UpdateKeepsWellFormed(before, sid, f); }
        outcome := Updated;
      } else {
        ghost var before := contacts;
        contacts := contacts + [WithFields(freshId, f)];
        if WellFormed(before) && !HasId(before, freshId) {
          AppendKeepsWellFormed(before, WithFields(freshId, f));
        }
        outcome := Added;
      }
    }

    /** `[x for x in contacts if x["id"] != sid]`. */
    method Others(sid: string) returns (kept: seq<Contact>)
      ensures kept == RemoveId(contacts, sid)
    {
      kept := [];
      var i := 0;
      while i < |contacts|
        invariant 0 <= i <= |contacts|
        invariant kept == RemoveId(contacts[..i], sid)
      {
        assert contacts[..i + 1][..i] == contacts[..i];
        if contacts[i].id != sid {
          kept := kept + [contacts[i]];
        }
        i := i + 1;
      }
      assert contacts[..i] == contacts;
    }

    /** `delete_contact`: with a selection naming a present record and the
        user's confirmation, keep exactly the records with another id. */
    method Delete(sid: string, confirmed: bool) returns (outcome: DeleteOutcome)
      modifies this
      ensures outcome == if sid == [] then NothingSelected
        else if !HasId(old(contacts), sid) then UnknownId
        else if !confirmed then Declined
        else Deleted
      ensures outcome == Deleted ==> contacts == RemoveId(old(contacts), sid)
      ensures outcome != Deleted ==> contacts == old(contacts)
      ensures WellFormed(old(contacts)) ==> WellFormed(contacts)
    {
      if sid == [] {
        return NothingSelected;
      }
      var found := Lookup(contacts, sid);
      if found.None? {
        return UnknownId;
      }
      if !confirmed {
        return Declined;
      }
      var kept := Others(sid);
      if WellFormed(contacts) { RemoveKeepsWellFormed(contacts, sid); }
      contacts := kept;
      outcome := Deleted;
    }

    /** The rows `export_csv` writes, or its refusal of an empty list. */
    method Export() returns (result: Exported)
      ensures result == ExportTable(contacts)
    {
      if contacts == [] {
        return NothingToExport;
      }
      var rows := [Header];
      var i := 0;
      while i < |contacts|
        invariant 0 <= i <= |contacts|
        invariant rows == [Header] + ContactRows(contacts[..i])
      {
        assert contacts[..i + 1][..i] == contacts[..i];
        rows := rows + [Row(contacts[i])];
        i := i + 1;
      }
      assert contacts[..i] == contacts;
      result := Table(rows);
    }

    /** One pass of the `import_csv` row loop: skip an empty row, a blank
        name and a raw (name, phone, email) already present; otherwise append
        the stripped values under `id`. */
    method ImportOne(row: seq<string>, id: string)
      modifies this
      ensures contacts == ImportRow(old(contacts), row, id)
    {
      if row == [] {
        return;
      }
      var p := PadRow(row);
      var name, phone, email, address := p[0], p[1], p[2], p[3];
      if Strip(name) == [] {
        return;
      }
      if HasKey(contacts, name, phone, email) {
        return;
      }
      contacts := contacts + [Contact(id, Strip(name), Strip(phone), Strip(email), Strip(address))];
    }

    /** `import_csv` on the rows the reader produced (`table`, header
        first); `readFailed` says the reader raised after them. Row `j` of
        the data draws the fresh id `ids[j]`. Records appended before a
        failure stay in the list. */
    method Import(table: seq<seq<string>>, readFailed: bool, ids: seq<string>)
      returns (outcome: ImportOutcome)
      requires |table| <= |ids|
      modifies this
      ensures contacts == ImportTable(old(contacts), table, ids)
      ensures outcome == if readFailed then ImportFailed else Imported
      ensures WellFormed(old(contacts)) && DistinctFresh(old(contacts), ids) ==> WellFormed(contacts)
    {
      if table != [] {
        var rows := table[1..];
        ghost var start := contacts;
        var i := 0;
        while i < |rows|
          invariant 0 <= i <= |rows|
          invariant contacts == ImportRows(start, rows[..i], ids)
        {
          assert rows[..i + 1][..i] == rows[..i];
          ImportOne(rows[i], ids[i]);
          i := i + 1;
        }
        assert rows[..i] == rows;
        if WellFormed(start) && DistinctFresh(start, ids) {
          ImportKeepsWellFormed(start, rows, ids);
        }
      }
      outcome := if readFailed then ImportFailed else Imported;
    }
  }
}
