/**
  The Alberta batch normaliser: for every `baby-names-frequency*.csv`
  entry of the directory listing, read its rows as
  `rank, name, count, sex, year`, edit each row dict in place (drop
  `rank`, recode `sex`, add `IPA`), append the file's dicts to the result,
  and finally write the result under `name, sex, count, year, IPA`.

  The directory listing stands for `sorted(os.listdir())`, the file
  contents for what `open` and `DictReader` deliver, and `ipa` for
  `eng_to_ipa.convert`.
 */
module AlbertaAddIpa {
  import opened Csv
  import opened Regions

  /**
    The three in-place edits the script makes to one row dict. `del`
    raises `KeyError` on a missing key, so `rank` must be present.
   */
  function Edit(d: Dict<Column>, ipa: string -> string): Dict<Column>
    requires Rank in d && Sex in d && Name in d
  {
    var dropped := d - {Rank};
    var recoded := dropped[Sex := if dropped[Sex] == "Girl" then "F" else "M"];
    recoded[Ipa := ipa(recoded[Name])]
  }

  /**
    An edited row has exactly the output columns as keys (so `DictWriter`
    accepts it: a left-over `rank` would make it raise), and it is written
    as the fields of the record its input row stands for.
   */
  lemma EditWrites(f: string, row: seq<string>, ipa: string -> string)
    requires |row| == |InputColumns(Alberta)|
    ensures var d := FromRow(InputColumns(Alberta), row);
            Rank in d && Sex in d && Name in d &&
            WriteRow(OutputColumns, Edit(d, ipa)) == Some(Fields(Record(Alberta, f, row, ipa)))
  {
    ColumnsDistinct();
    var cols := InputColumns(Alberta);
    var d := FromRow(cols, row);
    assert d[Rank] == row[0] && d[Name] == row[1] && d[Count] == row[2] && d[Sex] == row[3] && d[Year] == row[4] by {
      assert cols[0] == Rank && cols[1] == Name && cols[2] == Count && cols[3] == Sex && cols[4] == Year;
    }
    EditedDictWrites(d, ipa);
  }

  /** The written row of an edited dict, in terms of the dict as read. */
  lemma EditedDictWrites(d: Dict<Column>, ipa: string -> string)
    requires d.Keys == Names(InputColumns(Alberta))
    ensures WriteRow(OutputColumns, Edit(d, ipa)) ==
            Some([d[Name], SexCode(d[Sex]), d[Count], d[Year], ipa(d[Name])])
  {
    var e := Edit(d, ipa);
    assert e.Keys <= Names(OutputColumns);
    var line := WriteRow(OutputColumns, e).value;
    assert line == [d[Name], SexCode(d[Sex]), d[Count], d[Year], ipa(d[Name])];
  }

  /** Every dict read from a file of this layout has the columns the edits delete and look up. */
  lemma ReadDictsHaveColumns(rows: seq<seq<string>>)
    requires WellFormed(Alberta, rows)
    ensures forall d :: d in ReadDicts(InputColumns(Alberta), rows) ==> Rank in d && Sex in d && Name in d
  {
  }

  /** The dicts of one file after the edits, in row order. */
  function EditAll(ds: seq<Dict<Column>>, ipa: string -> string): seq<Dict<Column>>
    requires forall d :: d in ds ==> Rank in d && Sex in d && Name in d
  {
    seq(|ds|, k requires 0 <= k < |ds| => Edit(ds[k], ipa))
  }

  /** A selected file's dicts, once edited, write as that file's records in row order. */
  lemma EditedFileWrites(f: string, files: map<string, seq<seq<string>>>, ipa: string -> string)
    requires Selected(Alberta, f) && f in files && WellFormed(Alberta, files[f])
    ensures forall d :: d in ReadDicts(InputColumns(Alberta), files[f]) ==> Rank in d && Sex in d && Name in d
    ensures WritesAs(EditAll(ReadDicts(InputColumns(Alberta), files[f]), ipa), FileRecords(Alberta, f, files, ipa))
  {
    ReadDictsHaveColumns(files[f]);
    var edited := EditAll(ReadDicts(InputColumns(Alberta), files[f]), ipa);
    var added := FileRecords(Alberta, f, files, ipa);
    forall k | 0 <= k < |edited|
      ensures WriteRow(OutputColumns, edited[k]) == Some(Fields(added[k]))
    {
      EditWrites(f, files[f][k], ipa);
    }
  }

  /**
    One selected file: its rows are read into a list of dicts, and each
    dict is then edited in place, in row order (rank is deleted, sex recoded and IPA added).
   */
  method ReadFile(rows: seq<seq<string>>, ipa: string -> string) returns (l: array<Dict<Column>>)
    requires WellFormed(Alberta, rows)
    ensures forall d :: d in ReadDicts(InputColumns(Alberta), rows) ==> Rank in d && Sex in d && Name in d
    ensures fresh(l) && l[..] == EditAll(ReadDicts(InputColumns(Alberta), rows), ipa)
  {
    var dicts := ReadDicts(InputColumns(Alberta), rows);
    ReadDictsHaveColumns(rows);
    l := new Dict<Column>[|dicts|](k requires 0 <= k < |dicts| => dicts[k]);
    assert l[..] == dicts;
    AddColumns(l, ipa);
  }

  /** The loop over one file's dicts: each is edited in place, in row order. */
  method AddColumns(l: array<Dict<Column>>, ipa: string -> string)
    requires forall d :: d in l[..] ==> Rank in d && Sex in d && Name in d
    modifies l
    ensures l[..] == EditAll(old(l[..]), ipa)
  {
    for j := 0 to l.Length
      invariant forall k :: 0 <= k < j ==> l[k] == Edit(old(l[k]), ipa)
      invariant forall k :: j <= k < l.Length ==> l[k] == old(l[k])
    {
      var d := l[j];
      d := d - {Rank};
      d := d[Sex := if d[Sex] == "Girl" then "F" else "M"];
      d := d[Ipa := ipa(d[Name])];
      l[j] := d;
    }
  }

  /**
    The script's `__main__`: the rows it writes to `../Alberta.csv` are the
    header and then one row per record of `Records(Alberta, ...)`.
   */
  method Run(listing: seq<string>, files: map<string, seq<seq<string>>>, ipa: string -> string)
    returns (written: Option<seq<seq<string>>>)
    requires Readable(Alberta, listing, files)
    ensures written == Some(Table(Records(Alberta, listing, files, ipa)))
  {
    var result: seq<Dict<Column>> := [];
    AccumulatedStart(Alberta, listing, files, ipa);
    for i := 0 to |listing|
      invariant Accumulated(Alberta, listing, files, ipa, i, result)
    {
      var f := listing[i];
      if Selected(Alberta, f) {
        var l := ReadFile(files[f], ipa);
        EditedFileWrites(f, files, ipa);
        AccumulatedStep(Alberta, listing, files, ipa, i, result, l[..]);
        result := result + l[..];
      } else {
        AccumulatedStep(Alberta, listing, files, ipa, i, result, []);
        assert result + [] == result;
      }
    }
    AccumulatedEnd(Alberta, listing, files, ipa, result);
    written := Write(OutputColumns, Title, result);
  }
}
