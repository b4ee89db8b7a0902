/**
  The USA batch normaliser: for every `yob*.txt` entry of the directory
  listing, read its rows as `name, sex, count`, edit each row dict in
  place (add `year`, sliced from the file name, and `IPA`), append the
  file's dicts to the result, and finally write the result under
  `name, sex, count, year, IPA`.

  The directory listing stands for `sorted(os.listdir())`, the file
  contents for what `open` and `DictReader` deliver, and `ipa` for
  `eng_to_ipa.convert`.
 */
module UsaAddIpa {
  import opened Strings
  import opened Csv
  import opened Regions

  /** The two in-place edits the script makes to one row dict of file `f`. */
  function Edit(f: string, d: Dict<Column>, ipa: string -> string): Dict<Column>
    requires Name in d
  {
    var dated := d[Year := Slice(f, 3, 7)];
    dated[Ipa := ipa(dated[Name])]
  }

  /**
    An edited row has exactly the output columns as keys, and it is
    written as the fields of the record its input row stands for.
   */
  lemma EditWrites(f: string, row: seq<string>, ipa: string -> string)
    requires |row| == |InputColumns(Usa)|
    ensures var d := FromRow(InputColumns(Usa), row);
            Name in d &&
            WriteRow(OutputColumns, Edit(f, d, ipa)) == Some(Fields(Record(Usa, f, row, ipa)))
  {
    ColumnsDistinct();
    var cols := InputColumns(Usa);
    var d := FromRow(cols, row);
    assert d[Name] == row[0] && d[Sex] == row[1] && d[Count] == row[2] by {
      assert cols[0] == Name && cols[1] == Sex && cols[2] == Count;
    }
    EditedDictWrites(f, d, ipa);
  }

  /** The written row of an edited dict, in terms of the dict as read. */
  lemma EditedDictWrites(f: string, d: Dict<Column>, ipa: string -> string)
    requires d.Keys == Names(InputColumns(Usa))
    ensures WriteRow(OutputColumns, Edit(f, d, ipa)) ==
            Some([d[Name], d[Sex], d[Count], UsaYear(f), ipa(d[Name])])
  {
    var e := Edit(f, d, ipa);
    assert e.Keys <= Names(OutputColumns);
    var line := WriteRow(OutputColumns, e).value;
    assert line == [d[Name], d[Sex], d[Count], UsaYear(f), ipa(d[Name])];
  }

  /** Every dict read from a file of this layout has the column the edits look up. */
  lemma ReadDictsHaveColumns(rows: seq<seq<string>>)
    requires WellFormed(Usa, rows)
    ensures forall d :: d in ReadDicts(InputColumns(Usa), rows) ==> Name in d
  {
  }

  /** The dicts of file `f` after the edits, in row order. */
  function EditAll(f: string, ds: seq<Dict<Column>>, ipa: string -> string): seq<Dict<Column>>
    requires forall d :: d in ds ==> Name in d
  {
    seq(|ds|, k requires 0 <= k < |ds| => Edit(f, ds[k], ipa))
  }

  /** A selected file's dicts, once edited, write as that file's records in row order. */
  lemma EditedFileWrites(f: string, files: map<string, seq<seq<string>>>, ipa: string -> string)
    requires Selected(Usa, f) && f in files && WellFormed(Usa, files[f])
    ensures forall d :: d in ReadDicts(InputColumns(Usa), files[f]) ==> Name in d
    ensures WritesAs(EditAll(f, ReadDicts(InputColumns(Usa), files[f]), ipa), FileRecords(Usa, f, files, ipa))
  {
    ReadDictsHaveColumns(files[f]);
    var edited := EditAll(f, ReadDicts(InputColumns(Usa), files[f]), ipa);
    var added := FileRecords(Usa, f, files, ipa);
    forall k | 0 <= k < |edited|
      ensures WriteRow(OutputColumns, edited[k]) == Some(Fields(added[k]))
    {
      EditWrites(f, files[f][k], ipa);
    }
  }

  /**
    One selected file: its rows are read into a list of dicts, and each
    dict is then edited in place, in row order (year and IPA are added).
   */
  method ReadFile(f: string, rows: seq<seq<string>>, ipa: string -> string) returns (l: array<Dict<Column>>)
    requires WellFormed(Usa, rows)
    ensures forall d :: d in ReadDicts(InputColumns(Usa), rows) ==> Name in d
    ensures fresh(l) && l[..] == EditAll(f, ReadDicts(InputColumns(Usa), rows), ipa)
  {
    var dicts := ReadDicts(InputColumns(Usa), rows);
    ReadDictsHaveColumns(rows);
    l := new Dict<Column>[|dicts|](k requires 0 <= k < |dicts| => dicts[k]);
    assert l[..] == dicts;
    AddColumns(f, l, ipa);
  }

  /** The loop over one file's dicts: each is edited in place, in row order. */
  method AddColumns(f: string, l: array<Dict<Column>>, ipa: string -> string)
    requires forall d :: d in l[..] ==> Name in d
    modifies l
    ensures l[..] == EditAll(f, old(l[..]), ipa)
  {
    for j := 0 to l.Length
      invariant forall k :: 0 <= k < j ==> l[k] == Edit(f, old(l[k]), ipa)
      invariant forall k :: j <= k < l.Length ==> l[k] == old(l[k])
    {
      var d := l[j];
      d := d[Year := Slice(f, 3, 7)];
      d := d[Ipa := ipa(d[Name])];
      l[j] := d;
    }
  }

  /**
    The script's `__main__`: the rows it writes to `../USA.csv` are the
    header and then one row per record of `Records(Usa, ...)`.
   */
  method Run(listing: seq<string>, files: map<string, seq<seq<string>>>, ipa: string -> string)
    returns (written: Option<seq<seq<string>>>)
    requires Readable(Usa, listing, files)
    ensures written == Some(Table(Records(Usa, listing, files, ipa)))
  {
    var result: seq<Dict<Column>> := [];
    AccumulatedStart(Usa, listing, files, ipa);
    for i := 0 to |listing|
      invariant Accumulated(Usa, listing, files, ipa, i, result)
    {
      var f := listing[i];
      if Selected(Usa, f) {
        var l := ReadFile(f, files[f], ipa);
        EditedFileWrites(f, files, ipa);
        AccumulatedStep(Usa, listing, files, ipa, i, result, l[..]);
        result := result + l[..];
      } else {
        AccumulatedStep(Usa, listing, files, ipa, i, result, []);
        assert result + [] == result;
      }
    }
    AccumulatedEnd(Usa, listing, files, ipa, result);
    written := Write(OutputColumns, Title, result);
  }
}
