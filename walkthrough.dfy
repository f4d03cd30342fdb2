/** Worked examples of the report format: a vulnerability row of the
    scanner's table and an image declaration line, followed through the
    row pattern, the fix selection, the image pattern and the short name. */
module Walkthrough {
  import opened Wrappers
  import opened Strings
  import opened Findings
  import opened Images

  /** The identifier cell of the row `│ CVE-2023-1 │ Critical │
      golang.org/x/net │ 0.5.0 │ 0.7.0,0.8.0 │ false │ go │` is a CVE
      identifier. */
  lemma RowIdWellFormed()
    ensures IsCveId("CVE-2023-1") && !IsSpace("CVE-2023-1"[9])
  {
    assert "CVE-2023-1" == "CVE-" + "2023" + "-" + "1";
    LowerIs("CVE-", "cve-");
    YearAndNumber();
    CveIdOf("CVE-", "2023", "1");
  }

  /** The identifier's year and number are digit runs. */
  lemma YearAndNumber()
    ensures AllOf("2023", Digit) && AllOf("1", Digit)
  {
  }

  /** The package, version and fix cells of that row are tokens of their
      classes. */
  lemma RowTokensWellFormed()
    ensures IsToken("golang.org/x/net", PackageChar)
    ensures IsToken("0.5.0", VersionChar) && IsToken("0.7.0,0.8.0", FixChar)
  {
  }

  /** The severity, availability and ecosystem cells of that row match
      their words in any letter case. */
  lemma RowWordsMatch()
    ensures Lower("Critical") == "critical"
    ensures Lower("false") == "false" && Lower("go") == "go"
  {
    LowerIs("Critical", "critical");
    LowerIs("false", "false");
    LowerIs("go", "go");
  }

  /** The cells of that row, each printed between two spaces, match the
      row pattern; the groups are the cell contents. */
  lemma RowCellsMatch()
    ensures RowFromCells([Pad("CVE-2023-1"), Pad("Critical"), Pad("golang.org/x/net"), Pad("0.5.0"),
      Pad("0.7.0,0.8.0"), Pad("false"), Pad("go")]) == Some(Row("Critical", "golang.org/x/net", "0.5.0", "0.7.0,0.8.0"))
  {
    var cells := [Pad("CVE-2023-1"), Pad("Critical"), Pad("golang.org/x/net"), Pad("0.5.0"),
      Pad("0.7.0,0.8.0"), Pad("false"), Pad("go")];
    RowIdWellFormed();
    RowTokensWellFormed();
    RowWordsMatch();
    RowOfPaddedCells(cells, "CVE-2023-1", "Critical", "golang.org/x/net", "0.5.0", "0.7.0,0.8.0", "false", "go");
  }

  /** That row, ended by a line break, is matched and its groups are the
      cell contents. */
  lemma RowMatched(line: string)
    requires line == Join([""] + [Pad("CVE-2023-1"), Pad("Critical"), Pad("golang.org/x/net"), Pad("0.5.0"),
      Pad("0.7.0,0.8.0"), Pad("false"), Pad("go")] + ["\n"], Bar)
    ensures MatchRow(line) == Some(Row("Critical", "golang.org/x/net", "0.5.0", "0.7.0,0.8.0"))
  {
    var cells := [Pad("CVE-2023-1"), Pad("Critical"), Pad("golang.org/x/net"), Pad("0.5.0"),
      Pad("0.7.0,0.8.0"), Pad("false"), Pad("go")];
    PadWithout("CVE-2023-1", Bar);
    PadWithout("Critical", Bar);
    PadWithout("golang.org/x/net", Bar);
    PadWithout("0.5.0", Bar);
    PadWithout("0.7.0,0.8.0", Bar);
    PadWithout("false", Bar);
    PadWithout("go", Bar);
    MatchRowOfCells("", cells, "\n");
    RowCellsMatch();
  }

  /** That row contributes `golang.org/x/net` with `v0.7.0`: only the first
      listed fix is used, with `v` put in front. */
  lemma RowContribution()
    ensures Contribution(Row("Critical", "golang.org/x/net", "0.5.0", "0.7.0,0.8.0"))
      == Some(Candidate("golang.org/x/net", "v0.7.0"))
  {
    RowTokensWellFormed();
    assert StartsWith("golang.org/x/net", Namespace);
    assert |Lower("0.7.0,0.8.0")| != |"none"|;
    ChosenFixExamples();
  }

  /** On its own that row offers `golang.org/x/net` with `v0.7.0` and gives
      the map `{golang.org/x/net: v0.7.0}`. */
  lemma RowFixSet(line: string)
    requires line == Join([""] + [Pad("CVE-2023-1"), Pad("Critical"), Pad("golang.org/x/net"), Pad("0.5.0"),
      Pad("0.7.0,0.8.0"), Pad("false"), Pad("go")] + ["\n"], Bar)
    ensures Qualify(line) == Some(Candidate("golang.org/x/net", "v0.7.0"))
    ensures IsFixSetOf(Offers([line]), map["golang.org/x/net" := "v0.7.0"])
  {
    RowMatched(line);
    RowContribution();
    SingleOfferFixSet(line, Candidate("golang.org/x/net", "v0.7.0"));
  }

  /** The path, name and tag of the example reference are image
      characters, and the separating space is whitespace. */
  lemma ReferenceChars()
    ensures AllOf("/thirdparty/foo:v1.2.3", ImageChar)
    ensures AllOf(" ", Space)
  {
  }

  /** The declaration keyword of the example folds to the pattern's
      lower-case keyword. */
  lemma KeywordFolds()
    ensures Lower("Scanning image:") == "scanning image:"
  {
    LowerIs("Scanning image:", "scanning image:");
  }

  /** `Scanning image: <registry>/thirdparty/foo:v1.2.3`, followed by the
      end of the line or a character outside the reference class, declares
      that reference. */
  lemma ScanningDeclaration(registry: string, rest: string)
    requires AllOf(registry, ImageChar)
    requires rest == [] || !In(rest[0], ImageChar)
    ensures MatchImage("Scanning image:" + " " + (registry + "/thirdparty/foo:v1.2.3") + rest)
      == Some(registry + "/thirdparty/foo:v1.2.3")
  {
    ReferenceChars();
    KeywordFolds();
    AllOfAppend(registry, "/thirdparty/foo:v1.2.3", ImageChar);
    ScanningLineDeclares("Scanning image:", " ", registry + "/thirdparty/foo:v1.2.3", rest);
  }

  /** The short name of `<registry>/thirdparty/foo:v1.2.3` is `foo`. */
  lemma ScanningShortName(registry: string)
    ensures ShortName(registry + "/thirdparty/foo:v1.2.3") == "foo"
  {
    assert registry + "/thirdparty/foo:v1.2.3" == (registry + "/thirdparty") + ['/'] + "foo" + [':'] + "v1.2.3";
    ShortNameOf(registry + "/thirdparty", "foo", "v1.2.3");
  }

  /** A reference pinned by digest and without a tag keeps `@sha256` in its
      short name: the first `:` after the last `/` is the digest's. */
  lemma DigestShortName(registry: string, hex: string)
    requires '/' !in hex
    ensures ShortName(registry + "/foo@sha256:" + hex) == "foo@sha256"
  {
    assert registry + "/foo@sha256:" + hex == registry + ['/'] + "foo@sha256" + [':'] + hex;
    ShortNameOf(registry, "foo@sha256", hex);
  }

  /** With a tag in front of the digest the short name is the bare name. */
  lemma TaggedDigestShortName(registry: string, hex: string)
    requires '/' !in hex
    ensures ShortName(registry + "/foo:v1@sha256:" + hex) == "foo"
  {
    var tag := "v1@sha256:" + hex;
    assert '/' !in tag;
    assert registry + "/foo:v1@sha256:" + hex == registry + ['/'] + "foo" + [':'] + tag;
    ShortNameOf(registry, "foo", tag);
  }

  /** Without a registry the name runs up to the tag: `nginx:1.25` gives
      `nginx`. */
  lemma UnqualifiedShortName()
    ensures ShortName("nginx:1.25") == "nginx"
  {
    assert "nginx:1.25" == [] + "nginx" + ":1.25";
    ShortNameGeneral([], "nginx", ":1.25");
  }

  /** Without a tag the name runs to the end: `<registry>/foo` gives `foo`. */
  lemma UntaggedShortName(registry: string)
    ensures ShortName(registry + "/foo") == "foo"
  {
    assert registry + "/foo" == (registry + "/") + "foo" + [];
    ShortNameGeneral(registry + "/", "foo", []);
  }

  /** A bare name is its own short name. */
  lemma BareShortName()
    ensures ShortName("foo") == "foo"
  {
    assert "foo" == [] + "foo" + [];
    ShortNameGeneral([], "foo", []);
  }
}
