# CURP document selector — matching and packaging core

The application takes a spreadsheet column of CURP identifiers (Mexican
personal identity codes) and an uploaded ZIP archive of documents, which it
extracts into a working folder (app2.py:94, 112). Each regular file at the top
level of that folder whose upper-cased name contains one of the identifiers is
copied into a destination folder; a file is kept when one of its copies goes
through. Then the copied documents are packed into an archive for download.

This project models the two parts of `app2.py` that do that work:

- `buscar_y_mover_archivos` (find and copy). First it normalises the
  identifiers: each cell is upper-cased and then stripped. Then it walks the
  directory listing in order. For each regular file it tries the identifiers
  in column order. An identifier that occurs in the upper-cased file name
  triggers a copy into the destination. The first copy that goes through
  counts the file, records its name and ends the search for that file. A copy
  that raises is reported and passed over, and the next identifier is tried,
  so a later matching identifier can still copy the file (app2.py:77-78).
  The function returns the count and the recorded names.
- The loop of `crear_zip_para_descarga` (packaging). It walks the recorded
  names in order. Each one that is a regular file of the destination folder
  is written into the archive under its bare name.

Modules:

- `Text`: the Python string primitives used. These are `str.upper()`
  (restricted to ASCII letters), `str.strip()` (with Python's full
  white-space set) and the substring test `needle in hay`.
- `Matcher`: the identifier normalisation, the nested search loops as
  methods, and reference definitions. `FirstCopy` is the inner loop's
  outcome. `Picked` gives the positions of the reported entries. `Deposit`
  gives the destination folder after the copies. The lemmas relate these.
- `Packager`: the archive as a sequence of members, the packaging loop as a
  method, and lemmas about its result and about its composition with the
  matcher.

The file system is abstracted as follows:

- The directory listing is a sequence of entries: name, "is a regular file",
  content.
- A folder is a map from file name to content.
- Whether one call to `shutil.copy` raises is an input. It is the set of
  failing attempts, where an attempt is named by the positions of the entry
  and of the identifier that triggered it.

## Model

| member | source | states |
|---|---|---|
| Text.UpperChar | app2.py:55 | a lower-case ASCII letter becomes its capital (code minus 32); every other character is kept; the result is never lower-case ASCII |
| Text.Upper | app2.py:62 | upper-casing keeps the length and maps each character through `UpperChar` |
| Text.Strip | app2.py:55 | the stripped text is a slice of the input; all that was cut on either side is white space; the slice neither starts nor ends with white space |
| Text.Contains | app2.py:62-65 | `needle in hay` holds exactly when some slice of `hay` equals `needle`; the matcher's test `Matcher.Matches` is `Contains` applied to the upper-cased file name |
| Text.EmptyIsEverywhere | app2.py:65 | the empty identifier occurs in every name |
| Text.UpperStripCommute | app2.py:55 | stripping an upper-cased text equals upper-casing the stripped text |
| Matcher.Normalize | app2.py:55 | one identifier per cell, in column order; each equals the stripped, upper-cased cell; no identifier holds lower-case ASCII or has white space at either end |
| Matcher.NormalizeIdempotent | app2.py:55 | normalising an already normalised list changes nothing |
| Matcher.FirstCopy | app2.py:64-78 | the inner loop's result is an identifier position whose copy succeeded; no earlier identifier both matches and gets its copy through; a result of none means no identifier does |
| Matcher.Picked | app2.py:58-76 | the reported positions are strictly increasing and lie within the scanned prefix of the listing, so each entry is reported at most once |
| Matcher.Deposit | app2.py:67-72 | after the copies, the destination holds exactly its former files plus the copied names; files not copied over keep their content |
| Matcher.FindAndCopy | app2.py:41-80 | the count, the recorded names and the destination folder equal the specification built from the normalised identifiers; the count is the number of names |
| Matcher.ScanListing | app2.py:58-78 | the outer loop: recorded names and destination follow `Picked` and `Deposit`, and the count is the number of recorded names |
| Matcher.CopyOnFirstMatch | app2.py:64-78 | the inner loop copies exactly when some identifier both occurs in the upper-cased name and has its copy go through; it agrees with `FirstCopy`; a copy puts the entry's content under its name |
| Matcher.PickedExactly | app2.py:58-76 | a position is reported exactly when it is a regular file whose inner loop copied it |
| Matcher.RecordedIff | app2.py:61-76 | an entry is reported iff it is a regular file and some matching identifier got its copy through, so a raised copy is retried by any later matching identifier |
| Matcher.NoFailuresIsFilter | app2.py:58-76 | when no copy raises, the report is the listing filtered by "regular file whose upper-cased name contains some identifier" |
| Matcher.ReportedNamesMatch | app2.py:58-80 | every reported name is a regular file's name containing some normalised identifier; names follow listing order, each entry at most once |
| Matcher.NonFilesNeverCopied | app2.py:61 | an entry that is not a regular file is never reported and never appears in the destination |
| Matcher.NoIdentifiersNoMatches | app2.py:64-65 | an empty identifier column reports nothing |
| Matcher.BlankIdentifierMatchesEveryFile | app2.py:55-65 | a white-space-only cell becomes the empty identifier, so every regular file is reported when no copy raises |
| Matcher.IdentifierOrderIrrelevant | app2.py:64-76 | when no copy raises, reordering or repeating identifiers reports the same files |
| Matcher.DepositHoldsSourceContent | app2.py:67-72 | with distinct listed names, each copied name holds in the destination the content of the entry it was copied from |
| Packager.Packed | app2.py:31-35 | archive members come in the order of the requested names, skipping some; each is a file of the folder with the folder's bytes |
| Packager.PackedKeepsPresent | app2.py:31-35 | a name is in the archive iff it was requested and is a regular file of the folder |
| Packager.PackedAllPresent | app2.py:31-35 | when every requested name is in the folder, the archive holds them all, in order |
| Packager.Package | app2.py:26-39 | the packaging loop builds exactly `Packed` of the names and the folder |
| Packager.PackageAfterMatch | app2.py:125-135 | packaging the matcher's result stores every reported file, in order; with distinct listed names, each member carries the bytes of its source file |

## Left out

- The Streamlit interface (uploads, buttons, messages, download) is left out. In the loops, the success and error messages are marked only by comments at the points where they are printed.
- `extraer_zip` and the RAR option are left out. Archive extraction is replaced by the listing given as input.
- Compression is left out. The archive is the sequence of its members in write order, and the in-memory buffer is not modelled.
- Spreadsheet reading is left out: `pd.read_excel`, the missing-column check, and `astype(str)`, which turns an empty cell into the text "nan". The raw identifier cells are given as strings.
- File-system I/O is left out: the directory listing, `is_file`, file contents and copy failures are inputs to `Matcher.FindAndCopy`. `os.listdir` order is whatever order the listing arrives in.
- Inside the `try` of app2.py:69-78, only `shutil.copy` is taken to raise. If the count, the append or the success message raised after the append, the program would record the file and go on to the next identifier, possibly recording the file twice; the model does not capture that.
- Matcher.CopyOnFirstMatch: a copy that raises is assumed to leave the destination unchanged. A partial write by `shutil.copy` is not modelled.
- Text.Upper: only ASCII letters are upper-cased. Python's `str.upper()` maps all of Unicode, and the model applies the ASCII restriction to both the identifier cells (app2.py:55) and the file names (app2.py:62). Some non-ASCII letters upper-case to ASCII in Python: "ſ" becomes "S", "ı" becomes "I", "ß" becomes "SS" and "ﬁ" becomes "FI". A non-ASCII letter typed into a cell, such as "ñ", becomes "Ñ" in Python but stays "ñ" here. So the model can miss a match the program makes (for example 'straße.pdf' against 'STRASSE'). It never makes one the program misses, because Python's upper-casing of the model's upper-cased text equals its upper-casing of the original. `str.strip()` does use Python's full white-space set.
- Sub-directories already present in the destination are not modelled. Copying onto a directory name is not modelled.
- Creating and removing the temporary working folders is not modelled.
- The identifier that matched a file is only printed (app2.py:75). The function returns only the count and the names (app2.py:80), and that is what is modelled.
