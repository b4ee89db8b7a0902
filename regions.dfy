/**
  What the two batch normalisers compute, stated as functions: the
  canonical output record, each region's file-name rule and row layout,
  the record one input row becomes, and the records a whole directory
  listing becomes. The scripts themselves (modules AlbertaAddIpa and
  UsaAddIpa) are proved to write exactly `Table(Records(...))`.
 */
module Regions {
  import opened Strings
  import Csv

  /** One output row. Every field stays text, as the scripts never parse them. */
  datatype NameRecord = NameRecord(name: string, sex: string, count: string, year: string, ipa: string)

  /**
    The column names the scripts use as dict keys. They are fixed string
    literals in the scripts; `Title` gives the text of each.
   */
  datatype Column = Rank | Name | Count | Sex | Year | Ipa

  function Title(c: Column): string {
    match c
    case Rank => "rank"
    case Name => "name"
    case Count => "count"
    case Sex => "sex"
    case Year => "year"
    case Ipa => "IPA"
  }

  /** The `DictWriter` field names of both scripts, in output order. */
  const OutputColumns: seq<Column> := [Name, Sex, Count, Year, Ipa]

  /** The header line of both output files. */
  const Header: seq<string> := ["name", "sex", "count", "year", "IPA"]

  /** A record's fields in the order of `OutputColumns`. */
  function Fields(r: NameRecord): seq<string> {
    [r.name, r.sex, r.count, r.year, r.ipa]
  }

  /** The written file as rows: the header, then one row per record. */
  function Table(records: seq<NameRecord>): seq<seq<string>> {
    [Header] + seq(|records|, k requires 0 <= k < |records| => Fields(records[k]))
  }

  datatype Region = Alberta | Usa

  /** The `DictReader` field names: the input files have no header row. */
  function InputColumns(region: Region): seq<Column> {
    match region
    case Alberta => [Rank, Name, Count, Sex, Year]
    case Usa => [Name, Sex, Count]
  }

  /** No layout names a column twice, so every read row keeps all its fields. */
  lemma ColumnsDistinct()
    ensures Csv.Distinct(InputColumns(Alberta)) && Csv.Distinct(InputColumns(Usa))
    ensures Csv.Distinct(OutputColumns)
  {
  }

  /** Which directory entries a script opens; the test is case-sensitive. */
  predicate Selected(region: Region, f: string) {
    match region
    case Alberta => StartsWith(f, "baby-names-frequency") && EndsWith(f, ".csv")
    case Usa => StartsWith(f, "yob") && EndsWith(f, ".txt")
  }

  /** The Alberta recoding: exactly `Girl` becomes `F`, every other label `M`. */
  function SexCode(given: string): string {
    if given == "Girl" then "F" else "M"
  }

  /** The USA year column: the file name sliced as `f[3:7]`. */
  function UsaYear(f: string): string {
    Slice(f, 3, 7)
  }

  /** The record that one input row of file `f` becomes. */
  function Record(region: Region, f: string, row: seq<string>, ipa: string -> string): NameRecord
    requires |row| == |InputColumns(region)|
  {
    match region
    case Alberta => NameRecord(row[1], SexCode(row[3]), row[2], row[4], ipa(row[1]))
    case Usa => NameRecord(row[0], row[1], row[2], UsaYear(f), ipa(row[0]))
  }

  /** Every row of a file the script opens has the layout's width. */
  predicate WellFormed(region: Region, rows: seq<seq<string>>) {
    forall row :: row in rows ==> |row| == |InputColumns(region)|
  }

  /**
    Every selected name of the listing is a readable file of well-formed
    rows. Names that are not selected are never opened and need nothing.
   */
  predicate Readable(region: Region, listing: seq<string>, files: map<string, seq<seq<string>>>) {
    forall f :: f in listing && Selected(region, f) ==> f in files && WellFormed(region, files[f])
  }

  /** The records one directory entry contributes. */
  function FileRecords(region: Region, f: string, files: map<string, seq<seq<string>>>,
                       ipa: string -> string): seq<NameRecord>
    requires Selected(region, f) ==> f in files && WellFormed(region, files[f])
  {
    if Selected(region, f) then
      var rows := files[f];
      seq(|rows|, j requires 0 <= j < |rows| => Record(region, f, rows[j], ipa))
    else []
  }

  /**
    An entry contributes records exactly when the rule selects it and its
    file has rows; then it contributes one record per row.
   */
  lemma FileContributes(region: Region, f: string, files: map<string, seq<seq<string>>>, ipa: string -> string)
    requires Selected(region, f) ==> f in files && WellFormed(region, files[f])
    ensures FileRecords(region, f, files, ipa) != [] <==> Selected(region, f) && files[f] != []
    ensures |FileRecords(region, f, files, ipa)| == if Selected(region, f) then |files[f]| else 0
  {
  }

  /** The records of a whole listing: each entry's records, concatenated in listing order. */
  function Records(region: Region, listing: seq<string>, files: map<string, seq<seq<string>>>,
                   ipa: string -> string): seq<NameRecord>
    requires Readable(region, listing, files)
  {
    if listing == [] then []
    else FileRecords(region, listing[0], files, ipa) + Records(region, listing[1..], files, ipa)
  }

  /** The number of rows in the selected files of a listing. */
  function RowCount(region: Region, listing: seq<string>, files: map<string, seq<seq<string>>>): nat
    requires Readable(region, listing, files)
  {
    if listing == [] then 0
    else (if Selected(region, listing[0]) then |files[listing[0]]| else 0)
         + RowCount(region, listing[1..], files)
  }

  /** The names of a listing that a script opens, in listing order. */
  function SelectedOnly(region: Region, listing: seq<string>): (kept: seq<string>)
    ensures forall f :: f in kept <==> f in listing && Selected(region, f)
  {
    if listing == [] then []
    else (if Selected(region, listing[0]) then [listing[0]] else [])
         + SelectedOnly(region, listing[1..])
  }

  // ---------------------------------------------------------------------
  // Accumulation: `result += l` per file, in listing order
  // ---------------------------------------------------------------------

  /** Processing a listing in two parts and joining the results changes nothing. */
  lemma {:induction false} RecordsAppend(region: Region, a: seq<string>, b: seq<string>,
                                         files: map<string, seq<seq<string>>>, ipa: string -> string)
    requires Readable(region, a + b, files)
    ensures Readable(region, a, files) && Readable(region, b, files)
    ensures Records(region, a + b, files, ipa) == Records(region, a, files, ipa) + Records(region, b, files, ipa)
  {
    if a == [] {
      assert a + b == b;
    } else {
      assert (a + b)[1..] == a[1..] + b;
      RecordsAppend(region, a[1..], b, files, ipa);
    }
  }

  /** One more entry of the listing appends that entry's records. */
  lemma RecordsStep(region: Region, listing: seq<string>, files: map<string, seq<seq<string>>>,
                    ipa: string -> string, i: nat)
    requires Readable(region, listing, files) && i < |listing|
    ensures Readable(region, listing[..i], files) && Readable(region, listing[..i + 1], files)
    ensures Records(region, listing[..i + 1], files, ipa)
         == Records(region, listing[..i], files, ipa) + FileRecords(region, listing[i], files, ipa)
  {
    assert listing[..i + 1] == listing[..i] + [listing[i]];
    RecordsAppend(region, listing[..i], [listing[i]], files, ipa);
    assert Records(region, [listing[i]], files, ipa) == FileRecords(region, listing[i], files, ipa) + [];
  }

  /** The output holds one record per row of every selected file: nothing is dropped or merged. */
  lemma {:induction false} RecordCount(region: Region, listing: seq<string>,
                                       files: map<string, seq<seq<string>>>, ipa: string -> string)
    requires Readable(region, listing, files)
    ensures |Records(region, listing, files, ipa)| == RowCount(region, listing, files)
  {
    if listing != [] {
      RecordCount(region, listing[1..], files, ipa);
    }
  }

  /**
    Row `j` of the `i`-th listing entry, when that entry is selected, is
    the output record at position (rows of the selected entries before it)
    + `j`: files in listing order, each file's rows in their order.
   */
  lemma RecordAt(region: Region, listing: seq<string>, files: map<string, seq<seq<string>>>,
                 ipa: string -> string, i: nat, j: nat)
    requires Readable(region, listing, files)
    requires i < |listing| && Selected(region, listing[i]) && j < |files[listing[i]]|
    ensures Readable(region, listing[..i], files)
    ensures var k := RowCount(region, listing[..i], files) + j;
            k < |Records(region, listing, files, ipa)| &&
            Records(region, listing, files, ipa)[k] == Record(region, listing[i], files[listing[i]][j], ipa)
  {
    RecordsAround(region, listing, files, ipa, i);
    RecordCount(region, listing[..i], files, ipa);
    IndexInMiddle(Records(region, listing[..i], files, ipa), FileRecords(region, listing[i], files, ipa),
                  Records(region, listing[i + 1..], files, ipa), j);
  }

  /** The records of a listing split around entry `i`. */
  lemma RecordsAround(region: Region, listing: seq<string>, files: map<string, seq<seq<string>>>,
                      ipa: string -> string, i: nat)
    requires Readable(region, listing, files) && i < |listing|
    ensures Readable(region, listing[..i], files) && Readable(region, listing[i + 1..], files)
    ensures Records(region, listing, files, ipa) ==
            Records(region, listing[..i], files, ipa) +
            (FileRecords(region, listing[i], files, ipa) + Records(region, listing[i + 1..], files, ipa))
  {
    assert listing == listing[..i] + listing[i..];
    RecordsAppend(region, listing[..i], listing[i..], files, ipa);
    assert listing[i..][1..] == listing[i + 1..];
  }

  lemma IndexInMiddle<T>(a: seq<T>, b: seq<T>, c: seq<T>, j: nat)
    requires j < |b|
    ensures |a| + j < |a + (b + c)| && (a + (b + c))[|a| + j] == b[j]
  {
  }

  /** An entry the rule does not select contributes nothing, wherever it stands. */
  lemma {:induction false} OnlySelectedContribute(region: Region, listing: seq<string>,
                                                  files: map<string, seq<seq<string>>>, ipa: string -> string)
    requires Readable(region, listing, files)
    ensures Readable(region, SelectedOnly(region, listing), files)
    ensures Records(region, listing, files, ipa) == Records(region, SelectedOnly(region, listing), files, ipa)
  {
    if listing != [] {
      var f, kept, rest := listing[0], SelectedOnly(region, listing), SelectedOnly(region, listing[1..]);
      OnlySelectedContribute(region, listing[1..], files, ipa);
      if Selected(region, f) {
        assert kept == [f] + rest;
        assert kept[0] == f && kept[1..] == rest;
      } else {
        assert kept == rest;
        assert FileRecords(region, f, files, ipa) == [];
      }
    }
  }

  /** With no selected entry the result is empty and the file is the header alone. */
  lemma {:induction false} NoMatchHeaderOnly(region: Region, listing: seq<string>,
                                             files: map<string, seq<seq<string>>>, ipa: string -> string)
    requires forall f :: f in listing ==> !Selected(region, f)
    ensures Readable(region, listing, files)
    ensures Records(region, listing, files, ipa) == []
    ensures Table(Records(region, listing, files, ipa)) == [Header]
  {
    if listing != [] {
      NoMatchHeaderOnly(region, listing[1..], files, ipa);
    }
  }

  /** Every output record's IPA is the conversion of that same record's name. */
  lemma {:induction false} IpaOfOwnName(region: Region, listing: seq<string>,
                                        files: map<string, seq<seq<string>>>, ipa: string -> string)
    requires Readable(region, listing, files)
    ensures forall r :: r in Records(region, listing, files, ipa) ==> r.ipa == ipa(r.name)
  {
    if listing != [] {
      IpaOfOwnName(region, listing[1..], files, ipa);
    }
  }

  // ---------------------------------------------------------------------
  // Writing the accumulated dicts
  // ---------------------------------------------------------------------

  /** `DictWriter` writes each dict of `ds` as the fields of the matching record. */
  predicate WritesAs(ds: seq<Csv.Dict<Column>>, records: seq<NameRecord>) {
    && |ds| == |records|
    && forall k :: 0 <= k < |ds| ==> Csv.WriteRow(OutputColumns, ds[k]) == Csv.Some(Fields(records[k]))
  }

  /** Appending one file's dicts to the result appends that file's records. */
  lemma WritesAsAppend(ds: seq<Csv.Dict<Column>>, records: seq<NameRecord>,
                       more: seq<Csv.Dict<Column>>, added: seq<NameRecord>)
    requires WritesAs(ds, records) && WritesAs(more, added)
    ensures WritesAs(ds + more, records + added)
  {
    forall k | 0 <= k < |ds + more|
      ensures Csv.WriteRow(OutputColumns, (ds + more)[k]) == Csv.Some(Fields((records + added)[k]))
    {
      if k >= |ds| {
        assert (ds + more)[k] == more[k - |ds|];
        assert (records + added)[k] == added[k - |ds|];
      }
    }
  }

  /** Dicts that write as `records` make the whole output file `Table(records)`. */
  lemma WritesAsTable(ds: seq<Csv.Dict<Column>>, records: seq<NameRecord>)
    requires WritesAs(ds, records)
    ensures Csv.Write(OutputColumns, Title, ds) == Csv.Some(Table(records))
  {
    var lines := Csv.WriteRows(OutputColumns, ds).value;
    assert lines == seq(|records|, k requires 0 <= k < |records| => Fields(records[k]));
    var written := Csv.Write(OutputColumns, Title, ds).value;
    assert written[1..] == lines;
    assert written[0] == Header by {
      forall i | 0 <= i < |Header|
        ensures written[0][i] == Header[i]
      {
        assert written[0][i] == Title(OutputColumns[i]);
        assert i == 0 || i == 1 || i == 2 || i == 3 || i == 4;
      }
    }
    assert written == [Header] + lines;
  }

  /**
    The loop invariant of both scripts: after the first `i` entries of the
    listing, the accumulated dicts write as exactly those entries' records.
   */
  predicate Accumulated(region: Region, listing: seq<string>, files: map<string, seq<seq<string>>>,
                        ipa: string -> string, i: nat, result: seq<Csv.Dict<Column>>)
  {
    && i <= |listing|
    && Readable(region, listing[..i], files)
    && WritesAs(result, Records(region, listing[..i], files, ipa))
  }

  lemma AccumulatedStart(region: Region, listing: seq<string>, files: map<string, seq<seq<string>>>,
                         ipa: string -> string)
    ensures Accumulated(region, listing, files, ipa, 0, [])
  {
    assert listing[..0] == [];
  }

  /**
    Appending the dicts of entry `i` (none when it is not selected) keeps
    the invariant for `i + 1`.
   */
  lemma AccumulatedStep(region: Region, listing: seq<string>, files: map<string, seq<seq<string>>>,
                        ipa: string -> string, i: nat, result: seq<Csv.Dict<Column>>, more: seq<Csv.Dict<Column>>)
    requires Readable(region, listing, files) && i < |listing|
    requires Accumulated(region, listing, files, ipa, i, result)
    requires WritesAs(more, FileRecords(region, listing[i], files, ipa))
    ensures Accumulated(region, listing, files, ipa, i + 1, result + more)
  {
    RecordsStep(region, listing, files, ipa, i);
    WritesAsAppend(result, Records(region, listing[..i], files, ipa), more, FileRecords(region, listing[i], files, ipa));
  }

  /** At the end of the listing the written file is `Table(Records(...))`. */
  lemma AccumulatedEnd(region: Region, listing: seq<string>, files: map<string, seq<seq<string>>>,
                       ipa: string -> string, result: seq<Csv.Dict<Column>>)
    requires Readable(region, listing, files)
    requires Accumulated(region, listing, files, ipa, |listing|, result)
    ensures Csv.Write(OutputColumns, Title, result) == Csv.Some(Table(Records(region, listing, files, ipa)))
  {
    assert listing[..|listing|] == listing;
    WritesAsTable(result, Records(region, listing, files, ipa));
  }

  // ---------------------------------------------------------------------
  // Per-region field rules
  // ---------------------------------------------------------------------

  /**
    Alberta: `rank` is dropped; name, count and year are copied from input
    positions 1, 2 and 4; sex is `F` exactly when the label was `Girl`.
   */
  lemma AlbertaRecordFields(f: string, row: seq<string>, ipa: string -> string)
    requires |row| == |InputColumns(Alberta)|
    ensures var r := Record(Alberta, f, row, ipa);
            && r.name == row[1] && r.count == row[2] && r.year == row[4]
            && (r.sex == "F" <==> row[3] == "Girl")
            && (r.sex == "M" <==> row[3] != "Girl")
            && r.ipa == ipa(row[1])
  {
  }

  /** Every Alberta output record has sex `F` or `M`, whatever the input held. */
  lemma {:induction false} AlbertaSexIsCode(listing: seq<string>, files: map<string, seq<seq<string>>>,
                                            ipa: string -> string)
    requires Readable(Alberta, listing, files)
    ensures forall r :: r in Records(Alberta, listing, files, ipa) ==> r.sex == "F" || r.sex == "M"
  {
    if listing != [] {
      AlbertaSexIsCode(listing[1..], files, ipa);
    }
  }

  /**
    USA: name, sex and count are copied from positions 0, 1 and 2 (sex is
    not recoded); the year is the file name's slice `f[3:7]`, which for
    every name the rule selects is the four characters after `yob`.
   */
  lemma UsaRecordFields(f: string, row: seq<string>, ipa: string -> string)
    requires |row| == |InputColumns(Usa)|
    ensures var r := Record(Usa, f, row, ipa);
            && r.name == row[0] && r.sex == row[1] && r.count == row[2]
            && r.ipa == ipa(row[0])
            && |r.year| <= 4
            && (Selected(Usa, f) ==> |r.year| == 4 && r.year == f[3..7])
  {
    if Selected(Usa, f) {
      UsaSelectedYear(f);
    }
  }

  /**
    A name the USA rule selects has at least seven characters, since `yob`
    and `.txt` cannot overlap; so `f[3:7]` never clamps and is the four
    characters after `yob`.
   */
  lemma UsaSelectedYear(f: string)
    requires Selected(Usa, f)
    ensures |f| >= 7 && UsaYear(f) == f[3..7] && |UsaYear(f)| == 4
  {
    var n := |f|;
    assert f[n - 4] == '.' by {
      assert f[n - 4..] == ".txt";
    }
    assert forall k :: 0 <= k < 3 ==> f[k] != '.' by {
      assert f[..3] == "yob";
      assert forall k :: 0 <= k < 3 ==> f[k] == f[..3][k];
    }
    SliceInRange(f, 3, 7);
  }

  /** All USA records that come from the same file carry the same year. */
  lemma UsaSameYearPerFile(listing: seq<string>, files: map<string, seq<seq<string>>>,
                           ipa: string -> string, i: nat, j1: nat, j2: nat)
    requires Readable(Usa, listing, files)
    requires i < |listing| && Selected(Usa, listing[i])
    requires j1 < |files[listing[i]]| && j2 < |files[listing[i]]|
    ensures Readable(Usa, listing[..i], files)
    ensures var base := RowCount(Usa, listing[..i], files);
            var recs := Records(Usa, listing, files, ipa);
            base + j1 < |recs| && base + j2 < |recs| &&
            recs[base + j1].year == recs[base + j2].year == UsaYear(listing[i])
  {
    RecordAt(Usa, listing, files, ipa, i, j1);
    RecordAt(Usa, listing, files, ipa, i, j2);
  }

  /**
    `yob1999.txt` gives the year `1999`; `yob.txt`, also selected, gives
    `.txt`, the four characters after `yob`, which here are the suffix.
   */
  lemma UsaYearExamples()
    ensures Selected(Usa, "yob1999.txt") && UsaYear("yob1999.txt") == "1999"
    ensures Selected(Usa, "yob.txt") && UsaYear("yob.txt") == ".txt"
  {
    SliceInRange("yob1999.txt", 3, 7);
    assert "yob1999.txt"[3..7] == "1999";
    assert "yob.txt"[3..7] == ".txt";
  }
}
