# Regional baby-name normalisers, modelled in Dafny

The repository prepares two regional baby-name frequency datasets for
phonetic analysis. Each region has one batch script, `data/Alberta/add_ipa.py`
or `data/USA/add_ipa.py`. A script walks the sorted directory listing and
opens the files whose names match the region's pattern:

- Alberta: `baby-names-frequency*.csv`.
- USA: `yob*.txt`.

It reads each file's rows as dicts under a fixed column list, since the files
have no header, and edits every dict in place:

- Alberta deletes `rank` and recodes `sex` (`Girl` to `F`, anything else to `M`).
- USA sets `year` to the file-name slice `f[3:7]`.
- Both add `IPA`, the name converted by `eng_to_ipa.convert`.

Each file's dicts are appended to one result list. At the end the script
writes that list with a header, under the column order
`name, sex, count, year, IPA`.

The model has six modules:

- `Strings`: the Python string operations the scripts use (`startswith`,
  `endswith`, slicing with clamped bounds).
- `Csv`: `DictReader` and `DictWriter` at the level of already-split rows.
  A row becomes `dict(zip(fieldnames, row))`. Writing a dict that has a key
  outside the field names raises `ValueError`, because the default is
  `extrasaction='raise'`. A missing key is written as `restval` `""`.
- `Regions`: what the scripts compute, as functions.
  - `NameRecord` is the output record.
  - `Record` gives the record one input row becomes.
  - `Records` gives the records of a whole listing, each file's records
    concatenated in listing order.
  - `Table` gives the written file: the header, then one row per record.
  - The lemmas about these functions state ordering, counting, selection and
    the field rules.
- `AlbertaAddIpa` and `UsaAddIpa`: the two scripts as imperative methods.
  - `Run` is the outer loop over the listing. It accumulates
    `result := result + l[..]`.
  - `ReadFile` turns one file's rows into an array of dicts.
  - `AddColumns` is the inner loop that edits each dict of that array in place.
  - `Run` is proved to write exactly `Table(Records(...))`.
- `Scenarios`: concrete directories and file-name examples.

Inputs that the scripts take from the environment are parameters:

- The directory listing (`sorted(os.listdir())`) is a `seq<string>`. The
  proofs hold for any order, so sorting itself is not modelled. The output
  follows whatever order the listing has.
- File contents are a map from file name to rows that are already split.
- `eng_to_ipa.convert` is a function parameter `ipa: string -> string`.

The scripts' dict keys are fixed string literals. The model names them by
the enumeration `Column`, and `Title` gives the literal text. The header
line is that text.

Every field stays a string, as in the scripts. Nothing parses `count` or
`year`, and the Alberta `sex` column ends up as the text `F` or `M`. A
typed record (an enumerated sex, an integer count) would describe the data
but not the code, so the model follows the code.

## Model

| member | source | states |
|---|---|---|
| `Strings.Slice` | data/USA/add_ipa.py:21 | Python slicing `s[lo:hi]`: the length is the clamped span (0 when `lo` is past the end or not below `hi`), and character `k` is `s[lo + k]` |
| `Strings.SliceInRange` | data/USA/add_ipa.py:21 | when both bounds lie within the string, the slice is the ordinary subsequence |
| `Strings.StartsWithIffPrefix` | data/Alberta/add_ipa.py:14 | `startswith` holds exactly when the name is the prefix followed by something |
| `Strings.EndsWithIffSuffix` | data/Alberta/add_ipa.py:14 | `endswith` holds exactly when the name is something followed by the suffix |
| `Csv.FromRow` | data/Alberta/add_ipa.py:17-19 | a row read by `DictReader` has exactly the field names as keys, and with distinct names each name maps to the field at its position |
| `Csv.WriteRows` | data/Alberta/add_ipa.py:30-33 | `writerows` succeeds exactly when every dict can be written, and then writes one row per dict, in order |
| `Csv.WriteReadRoundTrip` | data/USA/add_ipa.py:17-31 | within the CSV model, writing a dict under the same distinct field names it was read with gives back the row as read (reading and writing lose nothing); the scripts themselves write under other columns, see `EditedDictWrites` |
| `Regions.SelectedOnly` | data/Alberta/add_ipa.py:12-14 | the names a script opens are exactly the listing's names that meet the region's prefix-and-suffix rule |
| `Regions.FileContributes` | data/USA/add_ipa.py:14-24 | an entry contributes records exactly when the rule selects it and its file has rows, and then one record per row |
| `Regions.OnlySelectedContribute` | data/Alberta/add_ipa.py:14 | the records of a listing equal the records of its selected names alone: every other entry contributes nothing |
| `Regions.RecordsAppend` | data/Alberta/add_ipa.py:26 | accumulation by `result += l` preserves order: the records of `a + b` are those of `a` followed by those of `b` |
| `Regions.RecordCount` | data/Alberta/add_ipa.py:19-26 | the number of output records equals the total row count of the selected files (nothing dropped, merged or deduplicated) |
| `Regions.RecordAt` | data/Alberta/add_ipa.py:12-26 | row `j` of selected listing entry `i` is output record number (rows of the selected entries before `i`) + `j`: listing order, then row order |
| `Regions.RecordsAround` | data/Alberta/add_ipa.py:12-26 | the records of a listing are those of the entries before `i`, then entry `i`'s own, then those of the entries after it |
| `Regions.NoMatchHeaderOnly` | data/Alberta/add_ipa.py:10-33 | with no selected entry the result is empty and the written file is the header alone |
| `Regions.IpaOfOwnName` | data/Alberta/add_ipa.py:24 | every output record's IPA is the conversion of that same record's name |
| `Regions.AlbertaRecordFields` | data/Alberta/add_ipa.py:17-24 | Alberta: `rank` is dropped; name, count and year come from input positions 1, 2 and 4; sex is `F` exactly when the input was `Girl`, else `M`; IPA is the name's conversion |
| `Regions.AlbertaSexIsCode` | data/Alberta/add_ipa.py:23 | every Alberta output record has sex `F` or `M`, whatever the input held |
| `Regions.UsaRecordFields` | data/USA/add_ipa.py:17-22 | USA: name, sex and count come unchanged from positions 0, 1 and 2 (sex is not recoded); the year has at most four characters, and for every name the USA rule selects it is exactly the four characters `f[3..7]` |
| `Regions.UsaSelectedYear` | data/USA/add_ipa.py:14-21 | `yob` and `.txt` cannot overlap, so every name the USA rule opens has at least seven characters and `f[3:7]` is exactly the four characters after `yob`, never clamped |
| `Regions.UsaSameYearPerFile` | data/USA/add_ipa.py:20-21 | all USA records from the same file carry the same year, the slice `f[3:7]` of that file's name |
| `Regions.UsaYearExamples` | data/USA/add_ipa.py:14-21 | `yob1999.txt` is selected and gives year `1999`; `yob.txt` is selected too and gives `.txt`, the four characters after `yob` |
| `AlbertaAddIpa.EditWrites` | data/Alberta/add_ipa.py:21-24 | a row read and then edited (`del rank`, sex recode, IPA) is accepted by `DictWriter` and written as the fields of the record that row stands for |
| `AlbertaAddIpa.EditedDictWrites` | data/Alberta/add_ipa.py:22-24 | after the edits a dict holds exactly the output columns, and is written as name, recoded sex, count, year and the name's IPA |
| `AlbertaAddIpa.EditedFileWrites` | data/Alberta/add_ipa.py:19-24 | the edited dicts of a selected file are written as that file's records, in row order |
| `AlbertaAddIpa.ReadFile` | data/Alberta/add_ipa.py:16-24 | a selected file's rows become a fresh list of dicts, each edited, in row order |
| `AlbertaAddIpa.AddColumns` | data/Alberta/add_ipa.py:21-24 | given dicts that hold `rank` (which `del` needs), `sex` and `name`, the loop edits every dict of the list in place, and nothing else changes |
| `AlbertaAddIpa.Run` | data/Alberta/add_ipa.py:10-33 | the script writes the header followed by one row per record of the listing's selected files, files in listing order and rows in file order |
| `UsaAddIpa.EditWrites` | data/USA/add_ipa.py:20-22 | a row read and then edited (year from the file name, IPA) is written as the fields of the record that row stands for |
| `UsaAddIpa.EditedDictWrites` | data/USA/add_ipa.py:21-22 | after the edits a dict holds exactly the output columns, and is written as name, sex, count, `f[3:7]` and the name's IPA |
| `UsaAddIpa.EditedFileWrites` | data/USA/add_ipa.py:18-22 | the edited dicts of a selected file are written as that file's records, in row order |
| `UsaAddIpa.ReadFile` | data/USA/add_ipa.py:16-22 | a selected file's rows become a fresh list of dicts, each edited, in row order |
| `UsaAddIpa.AddColumns` | data/USA/add_ipa.py:20-22 | the loop edits every dict of the list in place, and nothing else changes |
| `UsaAddIpa.Run` | data/USA/add_ipa.py:10-31 | the script writes the header followed by one row per record of the listing's selected files, files in listing order and rows in file order |
| `Scenarios.AlbertaSelection` | data/Alberta/add_ipa.py:14 | `baby-names-frequency-2001.csv` and `baby-names-frequency.csv` are opened; a `.txt` suffix, a capital `B` or a USA name are not |
| `Scenarios.UsaSelection` | data/USA/add_ipa.py:14 | `yob2001.txt` and `yob.txt` are opened; a `.csv` suffix, `YOB` or an Alberta name are not |
| `Scenarios.AlbertaScenario` | data/Alberta/add_ipa.py:17-33 | `baby-names-frequency-2001.csv` holding `2,Emma,150,Girl,2001` is written as the header and `Emma,F,150,2001,<IPA of Emma>` |
| `Scenarios.UsaScenario` | data/USA/add_ipa.py:17-31 | `yob2001.txt` holding `Emma,F,150` is written as the header and `Emma,F,150,2001,<IPA of Emma>` |
| `Scenarios.AlbertaRunScenario` | data/Alberta/add_ipa.py:10-33 | running the Alberta script on that one-file directory writes exactly those two rows |
| `Scenarios.UsaRunScenario` | data/USA/add_ipa.py:10-31 | running the USA script on that one-file directory writes exactly those two rows |

## Left out

- Changing directory (`os.chdir`), listing it (`os.listdir`), opening files, and the output paths `../Alberta.csv` and `../USA.csv` are process and file-system I/O. The listing and the file contents are parameters, and the written file is returned as rows.
- Sorting the listing (`sorted`) is not modelled. The proofs hold for any order, and the output follows the order of the given listing.
- The parsing, quoting and escaping of the CSV text is not modelled. A row is a sequence of fields that is already split.
- Rows whose width differs from the column list are excluded by the precondition `Readable`. `DictReader` would handle them with `restkey`/`restval`. Blank lines, which `DictReader` skips, do not occur in the split rows.
- `eng_to_ipa.convert` is foreign code. It is the function parameter `ipa` and is treated as total and deterministic.
- The `print` progress messages are left out; they do not affect the result.
- Exceptions from I/O failures are left out.
- `Csv.Write` returns `None` when `DictWriter` would raise `ValueError`. The real writer would already have written the rows before the failing one. The scripts never reach that case, because `Run` always returns `Some`.
- Python dicts are objects, but the model treats them as values held in an array. After `result += l` every dict of `l` is referenced from both `l` and `result`, but nothing writes through `l` after the append and `l` is rebound for the next file, so treating the dicts as values loses no observable aliasing.
- Determinism is not stated as a lemma. Every member here is a function of its inputs, so re-running on the same inputs gives the same rows.
