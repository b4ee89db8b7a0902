/**
  Concrete inputs to both normalisers (one-file directories), and examples
  of which names the two file rules select.
 */
module Scenarios {
  import opened Csv
  import opened Regions
  import AlbertaAddIpa
  import UsaAddIpa

  /** Exactly the Alberta file pattern is opened; the test is case-sensitive. */
  lemma AlbertaSelection()
    ensures Selected(Alberta, "baby-names-frequency-2001.csv")
    ensures Selected(Alberta, "baby-names-frequency.csv")
    ensures !Selected(Alberta, "baby-names-frequency-2001.txt")
    ensures !Selected(Alberta, "Baby-names-frequency-2001.csv")
    ensures !Selected(Alberta, "yob2001.txt")
  {
    var f := "baby-names-frequency-2001.csv";
    assert f[..20] == "baby-names-frequency" && f[|f| - 4..] == ".csv";
    var g := "baby-names-frequency.csv";
    assert g[..20] == "baby-names-frequency" && g[|g| - 4..] == ".csv";
    var h := "baby-names-frequency-2001.txt";
    assert h[|h| - 4..][1] == 't';
    var u := "Baby-names-frequency-2001.csv";
    assert u[..20][0] == 'B';
  }

  /** Exactly the USA file pattern is opened; the test is case-sensitive. */
  lemma UsaSelection()
    ensures Selected(Usa, "yob2001.txt")
    ensures Selected(Usa, "yob.txt")
    ensures !Selected(Usa, "yob2001.csv")
    ensures !Selected(Usa, "YOB2001.txt")
    ensures !Selected(Usa, "baby-names-frequency-2001.csv")
  {
    var f := "yob2001.txt";
    assert f[..3] == "yob" && f[|f| - 4..] == ".txt";
    var g := "yob.txt";
    assert g[..3] == "yob" && g[|g| - 4..] == ".txt";
    var h := "yob2001.csv";
    assert h[|h| - 4..][1] == 'c';
    var u := "YOB2001.txt";
    assert u[..3][0] == 'Y';
    var b := "baby-names-frequency-2001.csv";
    assert b[..3][0] == 'b' && b[..3][1] == 'a';
  }

  /**
    The file `baby-names-frequency-2001.csv` holding the row
    `2,Emma,150,Girl,2001` is written as the header and
    `Emma,F,150,2001,<IPA of Emma>`: the rank is gone.
   */
  lemma AlbertaScenario(ipa: string -> string)
    ensures var f := "baby-names-frequency-2001.csv";
            var files := map[f := [["2", "Emma", "150", "Girl", "2001"]]];
            Readable(Alberta, [f], files) &&
            Table(Records(Alberta, [f], files, ipa)) == [Header, ["Emma", "F", "150", "2001", ipa("Emma")]]
  {
    AlbertaSelection();
    var f := "baby-names-frequency-2001.csv";
    var files := map[f := [["2", "Emma", "150", "Girl", "2001"]]];
    assert Records(Alberta, [f], files, ipa) == FileRecords(Alberta, f, files, ipa) + [];
  }

  /**
    The file `yob2001.txt` holding the row `Emma,F,150` is written as the
    header and `Emma,F,150,2001,<IPA of Emma>`: the year comes from the
    file name.
   */
  lemma UsaScenario(ipa: string -> string)
    ensures var f := "yob2001.txt";
            var files := map[f := [["Emma", "F", "150"]]];
            Readable(Usa, [f], files) &&
            Table(Records(Usa, [f], files, ipa)) == [Header, ["Emma", "F", "150", "2001", ipa("Emma")]]
  {
    UsaSelection();
    var f := "yob2001.txt";
    var files := map[f := [["Emma", "F", "150"]]];
    assert Records(Usa, [f], files, ipa) == FileRecords(Usa, f, files, ipa) + [];
    Strings.SliceInRange(f, 3, 7);
    assert UsaYear(f) == "2001";
  }

  /** Running the Alberta script on that directory writes exactly those two rows. */
  method AlbertaRunScenario(ipa: string -> string) returns (written: Option<seq<seq<string>>>)
    ensures written == Some([Header, ["Emma", "F", "150", "2001", ipa("Emma")]])
  {
    var f := "baby-names-frequency-2001.csv";
    AlbertaScenario(ipa);
    written := AlbertaAddIpa.Run([f], map[f := [["2", "Emma", "150", "Girl", "2001"]]], ipa);
  }

  /** Running the USA script on that directory writes exactly those two rows. */
  method UsaRunScenario(ipa: string -> string) returns (written: Option<seq<seq<string>>>)
    ensures written == Some([Header, ["Emma", "F", "150", "2001", ipa("Emma")]])
  {
    var f := "yob2001.txt";
    UsaScenario(ipa);
    written := UsaAddIpa.Run([f], map[f := [["Emma", "F", "150"]]], ipa);
  }
}
