# Padrón de votación — a Dafny model

This project models the core of a small Flask application (`app.py`). Each
operator of the application keeps a roster ("padrón") of club members in a
SQLite table `socios`. The operator can:

- upload an Excel or CSV file to replace the roster;
- search the roster;
- mark a member as having voted;
- delete a member;
- add a member by hand.

The panel shows how many members there are, how many have voted and how
many have not.

The model has four modules and a shared wrapper module:

- `Text` (`text.dfy`) holds the string operations the code uses:
  - `str.lower`, `str.strip` and `str.replace(c, "")`;
  - `str.endswith`;
  - the `in` substring test.

  Lower-casing and stripping are modelled on ASCII; the others work on
  any character.
- `Pipeline` (`pipeline.dfy`) models `process_file` as pure functions:
  - the extension check;
  - header normalisation;
  - column resolution by the markers `apellido`, `nombre` and `dni`;
  - name building;
  - the missing-DNI error;
  - `drop_duplicates`.

  A parsed sheet is a header row plus rows of text cells.
- `PipelineExamples` (`pipeline_examples.dfy`) holds imports of concrete
  tables. Each one shows one rule of the pipeline.
- `Roster` (`roster.dfy`) models the `socios` table itself:
  - the `Socio` record;
  - specification functions for each change and view (`Imported`,
    `WithVote`, `Removed`, `NewMember`, `Search`, `Votaron`);
  - the class `Padron`. It holds the rows (`socios`) and the
    AUTOINCREMENT counter (`nextId`). Its methods are `Insert`, `Upload` and
    `ReplaceAll` (the upload form), `Vote`, `Delete`, `Add` and `Panel`.

  Every method keeps `Valid()`:
  - ids are positive, strictly increasing and below the counter;
  - every vote flag is 0 or 1.

  Every method states the new roster as a function of the old one.

Where the code departs from its evident intent, the model follows the code:

- Each role is found on its own. One header such as "Apellido y Nombre"
  therefore fills both the surname and the first-name role. The built
  name is then `strip(cell + " " + cell)`. For a cell with no surrounding
  whitespace that is the cell, a space and the cell again
  (`PipelineExamples.CombinedColumnImport`).
- The missing-DNI error lists the normalised headers and then the
  synthetic column `apellido_nombre`. The code adds that column before
  it checks for a DNI column.
- Duplicate removal compares the untrimmed DNI. It also compares the
  untrimmed first-column name, but only in the fallback path (no surname
  or first-name column); a name built from the name columns is already
  stripped. Both fields are stripped again at insert time. Two pairs that
  become equal after stripping are therefore both stored
  (`Roster.DuplicateAfterStrip`).
- A DNI column is recognised only when its normalised label contains
  `dni`. A label such as "Documento" is not recognised.
- A sheet with no columns makes the code raise `IndexError` when it reads
  `df.columns[0]`. The model returns the error `NoColumns` instead (see
  "Left out").

## Model

| member | source | states |
|---|---|---|
| Text.Lower | app.py:55 | lower-casing keeps the length and maps each character through ASCII `LowerChar` |
| Text.LowerIdempotent | app.py:124 | lower-casing twice is lower-casing once |
| Text.Remove | app.py:56-57 | deleting a character never lengthens the string |
| Text.RemoveDeletesOnly | app.py:56-57 | `replace(c, "")` removes every `c`; every other character keeps its number of occurrences, and the length drops by the number of `c`s |
| Text.RemoveAppend | app.py:56-57 | deletion works piece by piece over a concatenation, so the kept characters stay in their order |
| Text.Strip | app.py:58 | the stripped string is no longer than the input and neither begins nor ends with whitespace |
| Text.StripPadded | app.py:58 | stripping whitespace padding off a string with non-blank ends gives back exactly that string |
| Text.StripDecompose | app.py:58 | the input is the stripped string with blank text added on both sides |
| Text.StripIdempotent | app.py:58 | stripping twice is stripping once |
| Text.StripDropsTrailingSpace | app.py:73 | an appended separator never survives strip |
| Text.StripEmptyIff | app.py:178 | strip yields "" exactly when every character is whitespace |
| Text.Contains | app.py:62-64 | a string contains only substrings no longer than itself |
| Text.EndsWith | app.py:46-48 | a string that ends with a suffix is some prefix followed by exactly that suffix |
| Text.EndsWithAppend | app.py:46-48 | any string followed by a suffix ends with that suffix |
| Text.MissingCharRulesOut | app.py:62-64 | a label lacking one of the marker's characters does not contain the marker |
| Pipeline.SupportedFormat | app.py:46-51 | an accepted file name is at least as long as its extension |
| Pipeline.NormalizeHeader | app.py:54-59 | a normalised header has no spaces or underscores, no upper-case letters and no surrounding whitespace |
| Pipeline.NormalizeHeaders | app.py:54-59 | one label per header, each without spaces, underscores, upper-case letters or surrounding whitespace |
| Pipeline.NormalizeFixes | app.py:54-59 | a label already in normal form is left unchanged |
| Pipeline.NormalizeIdempotent | app.py:54-59 | normalising twice is normalising once |
| Pipeline.NameColumnIsFresh | app.py:69 | the added column `apellido_nombre` never equals a normalised header |
| Pipeline.FindFirst | app.py:62-64 | the result is the first label containing the marker; if there is none, no label contains it |
| Pipeline.FindFirstIs | app.py:62-64 | the first matching position is the only possible answer |
| Pipeline.Resolve | app.py:62-64 | every resolved role is a valid column position |
| Pipeline.NameFromOneRole | app.py:70-73 | with one name role absent, the name is that cell stripped, with no stray separator |
| Pipeline.BuildName | app.py:66-73 | the fallback name is the first cell verbatim; a name built from the name columns has no surrounding whitespace |
| Pipeline.RowPair | app.py:78-79 | a row's pair carries the DNI cell exactly as read, untrimmed, and a built name without surrounding whitespace |
| Pipeline.Candidates | app.py:78-79 | one (name, dni) pair per row |
| Pipeline.Dedup | app.py:80 | the output has no duplicates, the same elements as the input, and is no longer than it |
| Pipeline.DedupInFirstOccurrenceOrder | app.py:80 | the kept elements appear in the order of their first occurrence |
| Pipeline.DedupCharacterized | app.py:80 | any order-preserving, duplicate-free list with the same elements is the deduplicated list |
| Pipeline.ProcessFile | app.py:44-82 | an unsupported extension gives `UnsupportedFormat`; no columns gives `NoColumns`; a success has no duplicates and at most one pair per row |
| Pipeline.ImportSucceedsIff | app.py:46-76 | an import succeeds exactly when the extension is accepted and some normalised label contains "dni" |
| Pipeline.MissingDniReport | app.py:75-76 | without a DNI column the error carries the normalised headers plus `apellido_nombre` |
| Pipeline.ImportOutput | app.py:78-82 | on success the output is the rows' distinct pairs, each once, in first-row order |
| PipelineExamples.SeparateColumnsNormalized | app.py:54-59 | "Apellido", "Nombre", "DNI" normalise to "apellido", "nombre", "dni" |
| PipelineExamples.SeparateColumnsRoles | app.py:62-64 | those labels resolve to columns 0, 1 and 2 |
| PipelineExamples.RepeatDropped | app.py:80 | a repeated pair is dropped and the order of first appearance kept |
| PipelineExamples.EndToEnd | app.py:44-82 | a three-row .csv import with one repeated row yields two pairs |
| PipelineExamples.LabelSpaced | app.py:54-59 | the label "Apellido y Nombre" loses its spaces and case and becomes "apellidoynombre" |
| PipelineExamples.CombinedColumnImport | app.py:62-73 | one label holding both markers fills both roles, and for a non-empty cell without surrounding whitespace the name becomes the cell, a space and the cell again |
| PipelineExamples.NoDniColumn | app.py:75-76 | headers "Apellido", "Nombre" are rejected with `["apellido", "nombre", "apellido_nombre"]` |
| PipelineExamples.UpperCaseExtensionRejected | app.py:46-51 | the extension test is case-sensitive: "SOCIOS.CSV" is rejected |
| Roster.Votaron | app.py:136 | the voted count never exceeds the roster size |
| Roster.Imported | app.py:112-116 | an import inserts one row per deduplicated pair |
| Roster.ImportedWellFormed | app.py:110-116 | an import numbers its rows with fresh consecutive ids from the counter, keeping the invariant |
| Roster.ImportedNoneVoted | app.py:25 | right after an import nobody has voted |
| Roster.ImportedContentsIndependent | app.py:112-116 | the stored names, DNIs and flags do not depend on the counter |
| Roster.DuplicateAfterStrip | app.py:80-115 | any two different pairs that agree once both fields are stripped both survive deduplication, and the import stores two rows with equal name and DNI under different ids |
| Roster.PaddedDniStoredTwice | app.py:80-115 | for example, ("Ana", "111") and ("Ana", " 111") are both kept and stored as two members with equal name and DNI |
| Roster.WithVote | app.py:155 | the vote update keeps the roster's length |
| Roster.VoteAbsent | app.py:155 | voting for an absent id changes nothing |
| Roster.VoteMarksOne | app.py:155 | voting sets the flag of that one row and leaves every other row as it was |
| Roster.VoteIdempotent | app.py:155 | voting twice is voting once |
| Roster.VoteKeepsWellFormed | app.py:155 | voting keeps the roster invariant |
| Roster.VotaronAfterVote | app.py:136 | the voted count rises by one exactly when the member had not voted |
| Roster.Removed | app.py:166 | deletion never lengthens the roster |
| Roster.DeleteAbsent | app.py:166 | deleting an absent id changes nothing |
| Roster.DeleteRemovesOne | app.py:166 | deleting removes exactly that one row and keeps the order of the others |
| Roster.DeleteKeepsWellFormed | app.py:166 | deleting keeps the roster invariant |
| Roster.NewMember | app.py:174-181 | an added member has a non-empty name and DNI, both without surrounding whitespace |
| Roster.AddNeedsAllFields | app.py:174-179 | a member is added exactly when each of the three fields has a non-blank character |
| Roster.AddedLikeImported | app.py:181 | a hand-added name is the name an import builds from the same surname and first name once both are trimmed (an import strips only the joined name, so inner padding such as "Perez " survives there) |
| Roster.Matching | app.py:127-131 | the filtered listing is no longer than the roster |
| Roster.MatchingIff | app.py:127-131 | a row is listed exactly when it is in the roster and its lowered name or DNI contains the query |
| Roster.MatchingIsSubsequence | app.py:127-131 | the listing is the roster with rows dropped, in their order |
| Roster.MatchingKeepsOrder | app.py:127-131 | the listing keeps increasing ids |
| Roster.Search | app.py:124-133 | the search result is no longer than the roster |
| Roster.SearchFilters | app.py:124-133 | with a non-blank query, the listing is exactly the matching rows, in roster order |
| Roster.SearchBlank | app.py:124-133 | a blank query lists the whole roster |
| Roster.SearchIgnoresCase | app.py:124 | the query's case does not matter |
| Roster.SearchIgnoresPadding | app.py:124 | a leading blank in the query does not matter |
| Roster.SearchFindsDni | app.py:124-131 | typing a member's stored DNI (non-empty, without surrounding whitespace, in any case) lists that member |
| Roster.Padron.constructor | app.py:18-28 | a new table is empty with the counter at 1 |
| Roster.Padron.Insert | app.py:186-189 | an insert appends one row with the next id and flag 0 |
| Roster.Padron.ReplaceAll | app.py:110-116 | the table becomes `Imported(pairs, old counter)`, with the counter advanced by the number of pairs |
| Roster.Padron.Upload | app.py:98-121 | no file or an empty name, and every import error, leave the table untouched; otherwise the table is replaced by the import |
| Roster.Padron.Vote | app.py:150-158 | the table becomes `WithVote(old, id)`; the counter is unchanged |
| Roster.Padron.Delete | app.py:161-169 | the table becomes `Removed(old, id)`; the counter is unchanged, so ids are never reused |
| Roster.Padron.Add | app.py:172-192 | without all three fields nothing changes; otherwise the new member is appended with the next id |
| Roster.Padron.Panel | app.py:123-137 | lists `Search(socios, buscar)`; counts over the whole roster, with `votaron <= total` and `restan = total - votaron` |

## Left out

- Flask routing, templates, redirects and the operator check against
  `USERS` (app.py:85-93) belong to the web layer. One `Padron` stands for
  one operator's database.
- The SQLite connection and schema handling (`get_db_path`, `init_db`,
  `get_socios`, app.py:11-41) are replaced by the in-memory class.
  Transactions and commits are the database's concern. `SELECT *` is
  taken to return rows in insertion (id) order.
- Parsing with `read_excel` and `read_csv` (app.py:47, 49) is not
  modelled: the sheet is given as a header row and rows of string cells,
  one per header (`Rectangular`). pandas artefacts are ignored, such as
  an empty cell read as "nan" or a name cell that is not a string.
- An empty DNI cell stays a float NaN: the DNI column is never converted
  to text (app.py:64, 78). `row["dni"].strip()` (app.py:115) then raises
  partway through the import. The model has only text cells, so it
  strips such a cell and stores the row.
- Pipeline.ProcessFile: the `IndexError` that `df.columns[0]` raises on a
  sheet with no columns (app.py:67-68) is modelled as the error value
  `NoColumns`, not as an exception that aborts the request.
- Pipeline.Resolve: duplicate normalised headers are resolved by
  position (the first match). In pandas, `df[col]` would return several
  columns instead.
- Python's Unicode `str.lower` and `str.strip` are modelled on ASCII only.
  Lower-casing maps A-Z. Whitespace is tab to carriage return, the four
  information separators and the space.
- The import error texts (app.py:51, 76) are modelled as the values of
  `ImportError`, not as formatted strings.
- The Excel export in `descargar` (app.py:195-217) is library output. Its
  counts are the same as the panel's.
- Concurrent operators and the debug server launch (app.py:220-221) are
  outside the model.
