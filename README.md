# Contact Book core, modelled in Dafny

A model of the non-UI logic of a small tkinter contact book (`app.py`).
It covers:

- the form validation: `validate_fields` and the two regular expressions `PHONE_RE` and `EMAIL_RE`;
- the search filter of `refresh_list`;
- the add and update branches of `add_or_save`;
- `delete_contact`;
- the rows `export_csv` writes;
- the row loop of `import_csv`;
- the lookup by id of `populate_form` and `copy_email`;
- the fallback of `load_contacts` to an empty list.

Modules:

- `Text` (text.dfy) stands in for `str.strip()`, `str.lower()`, the regex classes `\s` and `\d`, and the `in` operator on strings.
- `Validation` (validation.dfy) writes each regex out as an executable matcher. It proves each matcher equal, in both directions, to the language the regex describes, and it models `validate_fields`.
- `Records` (records.dfy) holds the contact record (`id, name, phone, email, address`). Each list operation is written there as a pure function over the list, with its contract and lemmas: the list invariants (unique ids; stored values stripped, with a non-empty name), order-preserving subsequences, the export/import round trip.
- `Book` (book.dfy) holds the class `ContactBook`. Its field `contacts` is the program's global list. Its methods run the source's loops, and each is proved to leave the list that the `Records` function gives.

Where the code and the design description of the program differ, the model follows the code:

- Updating an id that is not in the list changes nothing and still reports an update. There is no not-found error.
- Deleting an id that is not in the list returns quietly.
- The duplicate check of the import compares the raw, unstripped row values with the stored, stripped ones. So a row that differs from a record only by surrounding spaces is appended as a second record with the same stored key (`Records.ImportRowRule`, with the example `Records.PaddedRowIsNotDuplicate`).
- If reading the import table raises partway through, the records already appended stay in the list. The import is not all-or-nothing.
- The import reports no count of added records.
- `validate_fields` returns a boolean and shows a message. The model returns which check failed (`Verdict`), and that choice of message is exactly what the code decides.

## Model

| member | source | states |
|---|---|---|
| `Text.Strip` | app.py:30-36 | The result has no whitespace at either end. It is empty exactly when the input is all whitespace. An already stripped string is returned unchanged. |
| `Text.StripIsInfix` | app.py:108-110 | The input is whitespace, then `Strip(s)`, then whitespace: strip only removes edge whitespace. |
| `Text.Lower` | app.py:68 | Same length as the input, with each character lower-cased (ASCII). |
| `Text.Contains` | app.py:73 | `needle in hay` holds exactly when some position of `hay` starts a copy of `needle`. The empty needle is in every string. |
| `Validation.PhoneMatchIff` | app.py:27 | The greedy matcher accepts exactly the strings of the `PHONE_RE` shape: a `+` or digit, then at least five digits, whitespace, `-`, `(` or `)`. |
| `Validation.EmailMatchIff` | app.py:26 | The matcher accepts exactly the strings `x@y.z` with `x`, `y` and `z` non-empty and free of `@` and whitespace. |
| `Validation.EmailSingleAt` | app.py:26 | A string in the `EMAIL_RE` shape contains exactly one `@`. |
| `Validation.ValidateFields` | app.py:29-39 | A blank name is reported as `EmptyName`, whatever the phone and email are. Otherwise a non-blank phone whose stripped value is not in the phone shape is reported as `InvalidPhone`. Otherwise the same for the email gives `InvalidEmail`. Otherwise the result is `Accepted`. So a blank phone and a blank email are always accepted. |
| `Records.FindIndex` | app.py:52 | The position of the first record with the id, or none exactly when no record has it. |
| `Records.Lookup` | app.py:51-54 | The first record with the id, or none exactly when no record has it. With unique ids it is the one record with that id. |
| `Records.EmailToCopy` | app.py:201-210 | An email is copied exactly when something is selected and the first record with that id has a non-empty email. The copied email is the email of that first record. |
| `Records.Select` | app.py:71-77 | The shown records are an order-preserving subsequence of the list. A record is shown exactly when the query is a substring of its lower-cased `name phone email address`. |
| `Records.SelectCounts` | app.py:71-73 | Each record that matches is shown as many times as it occurs in the list, and a record that does not match is never shown. Together with the subsequence property of `Select`, this fixes the shown list even when the list holds equal records. |
| `Records.BlankQueryShowsAll` | app.py:68-73 | A blank search box (after strip) shows every record, in list order. |
| `Records.RemoveId` | app.py:135 | The result is an order-preserving subsequence of the list. It keeps exactly the records whose id differs from the selected one. |
| `Records.RemoveIdCounts` | app.py:135 | Each record with another id is kept as many times as it occurs, and no record with the deleted id is kept. |
| `Records.RemoveAbsentId` | app.py:131-135 | Removing an id that no record has leaves the list unchanged. |
| `Records.RemovePresentId` | app.py:135 | With unique ids, removing a present id shortens the list by exactly one, and the id is gone afterwards. |
| `Records.RemoveKeepsWellFormed` | app.py:135 | Deleting keeps ids unique and every record stored stripped with a non-empty name. |
| `Records.SubsequenceWellFormed` | app.py:135 | Leaving records out of a well-formed list keeps it well formed. |
| `Records.UpdateFirst` | app.py:93-99 | Only the first record with the id is rewritten. It keeps that id and takes the new values. The length is unchanged. If no record has the id, the list is unchanged. |
| `Records.UpdateKeepsWellFormed` | app.py:93-99 | An update keeps every id at its position. With stripped values and a non-empty name, the list stays well formed. |
| `Records.AppendKeepsWellFormed` | app.py:106-113 | Appending a well-stored record whose id is fresh keeps the list well formed. |
| `Records.ContactRows` | app.py:156-157 | One row `[name, phone, email, address]` per record, in list order. |
| `Records.ExportTable` | app.py:141-157 | An empty list is refused. Otherwise the table is the header row followed by one row per record, in list order. |
| `Records.PadRow` | app.py:176 | Exactly four fields: the row's own fields first, then `""` for each missing one; extra fields are dropped. |
| `Records.ImportRow` | app.py:174-189 | One row either leaves the list unchanged or appends one well-stored record that carries the row's id. |
| `Records.ImportRows` | app.py:173-189 | The earlier records are unchanged. At most one record is added per data row. Every added record is well stored and carries one of the row ids. |
| `Records.ImportRowRule` | app.py:174-189 | A row is skipped exactly when it is empty, its name is blank, or its raw name, phone and email equal those of a record already in the list. Otherwise the record with the row's id and the stripped four values is appended. |
| `Records.ImportRowsSkipsKnownKey` | app.py:180-182 | A data row whose raw key is already in the list built so far adds nothing. This holds whether the record was there before the import or was appended by an earlier row. |
| `Records.ImportRowsSkipsRepeatedRow` | app.py:177-189 | A later data row that repeats the non-blank, already stripped key of an earlier data row is skipped. |
| `Records.ImportKeepsWellFormed` | app.py:183-189 | With distinct ids that are not in the list, an import keeps ids unique and the list well formed. |
| `Records.ImportCoversRows` | app.py:177-189 | After an import, every data row whose name is non-blank and whose name, phone and email are already stripped has its key in the list. |
| `Records.ImportContactRows` | app.py:156-189 | Importing the rows exported from a list with distinct keys reproduces that list, record for record, in order, with the new ids. |
| `Records.ExportImportRoundTrip` | app.py:153-189 | Exporting a non-empty list of well-stored records with distinct keys and importing the table into an empty list gives the same records, in order, under the new ids. |
| `Records.PaddedRowIsNotDuplicate` | app.py:180 | A row `"Ada "` next to the stored `"Ada"` is not a duplicate: a second record with name `Ada` is appended. |
| `Book.ContactBook.constructor` | app.py:8-16 | A missing or unreadable data file gives an empty list. Otherwise the list is what was read. |
| `Book.ContactBook.Refresh` | app.py:67-78 | The loop shows exactly `Select` of the list, for the stripped, lower-cased query. |
| `Book.ContactBook.UpdateSelected` | app.py:93-99 | The for/break loop leaves the list equal to `UpdateFirst` of the old list. |
| `Book.ContactBook.AddOrSave` | app.py:81-117 | A failed check leaves the list unchanged and reports that check. With a selection, the list becomes `UpdateFirst` with the stripped values. Without one, the list becomes the old list plus one record with the fresh id and the stripped values. A well-formed list stays well formed when the fresh id is unused. |
| `Book.ContactBook.Others` | app.py:135 | The comprehension's result is `RemoveId` of the list. |
| `Book.ContactBook.Delete` | app.py:126-139 | Nothing selected, an unknown id, or a declined confirmation leaves the list unchanged and says which. Otherwise the list becomes `RemoveId` of the old one and stays well formed. |
| `Book.ContactBook.Export` | app.py:141-157 | The loop produces exactly `ExportTable` of the list. |
| `Book.ContactBook.ImportOne` | app.py:174-189 | One loop pass leaves the list equal to `ImportRow` of the old one. |
| `Book.ContactBook.Import` | app.py:162-194 | The header row is discarded and the data rows are processed in order. The list becomes `ImportTable` of the old one, even when reading failed. With fresh, distinct ids it stays well formed. |

## Left out

- Widgets, layout, theming (`DAY`, `NIGHT`, `apply_theme`, `toggle_theme`), message boxes, status texts and the clipboard are presentation and are not modelled. The Treeview selection (`selected_id`) is an explicit `sid` parameter, where `""` stands for no selection; `None` and `""` are both false in the code.
- `save_contacts` and the JSON encoding of `load_contacts` are file I/O. Only the load fallback to an empty list is modelled.
- The quoting and parsing of the `csv` module is not modelled. Tables are already-split rows (`seq<seq<string>>`), and the export yields the rows handed to the writer. The file dialogs (choosing or cancelling a path) and export write errors are I/O and are not modelled either.
- `uuid.uuid4()` is replaced by ids passed in. The well-formedness of add and import is stated under the hypothesis that those ids are unused and distinct.
- Python's Unicode tables are not modelled. Whitespace (`\s`, `strip()`) is the ASCII set (tab through carriage return, 0x1C-0x1F, space). `\d` is `0`-`9`, and `lower()` maps only `A`-`Z`.
- `$` in the regexes can also match before a final newline. The model ignores this, because the code only matches stripped strings, which cannot end in a newline.
- Records are values. The in-place mutation of the record dicts by the update loop is modelled as replacing the list element, because nothing else holds a reference to those dicts.
- A list read from the data file is not checked by the code. So well-formedness is stated as preserved by each operation, not as always true.
- The import does not validate phone or email, and the model does not claim that imported records pass `validate_fields`.
- Import failures before the first data row (an unreadable file, or no header) are covered by passing an empty or short `table` together with `readFailed`.
