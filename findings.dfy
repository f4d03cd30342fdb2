/** The finding extractor of parseAnchore.py (`parse_anchore_console`): it
    reads the scanner's console report line by line, keeps the
    Critical/High rows of Go packages under `golang.org/x/` that have a fix,
    and builds a map from package to the textually smallest normalised fix
    version. */
module Findings {
  import opened Wrappers
  import opened Strings
  import opened Order

  /** Packages outside this namespace never reach the fix set. */
  const Namespace: string := "golang.org/x/"

  /** The captured groups of one vulnerability row: severity, package,
      installed version and fix column. */
  datatype Row = Row(severity: string, pkg: string, version: string, fix: string)

  /** One qualifying row's contribution: a package and its normalised fix. */
  datatype Candidate = Candidate(pkg: string, fix: string)

  /** `CVE-\d+-\d+`, the prefix in any letter case. */
  predicate IsCveId(t: string) {
    CiHasAt(t, 0, "cve-") &&
    var rest := t[4..];
    var d := Span(rest, Digit);
    0 < d && d + 1 < |rest| && rest[d] == '-' && AllOf(rest[d + 1..], Digit)
  }

  /** `cve-` in any letter case, digits, a dash and digits form a CVE
      identifier. */
  lemma CveIdOf(prefix: string, year: string, number: string)
    requires Lower(prefix) == "cve-"
    requires year != [] && AllOf(year, Digit)
    requires number != [] && AllOf(number, Digit)
    ensures IsCveId(prefix + year + "-" + number)
  {
    var t := prefix + year + "-" + number;
    assert t[0..4] == prefix;
    var rest := t[4..];
    assert rest == year + ("-" + number);
    SpanOf(year, "-" + number, Digit);
    assert rest[|year|] == '-';
    assert rest[|year| + 1..] == number;
  }

  /** `GHSA-[\w-]+`, the prefix in any letter case. */
  predicate IsGhsaId(t: string) {
    CiHasAt(t, 0, "ghsa-") && 5 < |t| && AllOf(t[5..], AdvisoryChar)
  }

  /** A cell `\s*X\s*` whose `X` is a non-empty run of class characters.
      The classes exclude whitespace, so `X` is the trimmed cell. */
  predicate IsToken(t: string, k: CharClass) {
    t != [] && AllOf(t, k)
  }

  /** The seven cells between eight consecutive bars, matched against the
      row pattern. */
  function RowFromCells(cells: seq<string>): (r: Option<Row>)
    requires |cells| == 7
    ensures r.Some? ==> IsToken(r.value.pkg, PackageChar)
    ensures r.Some? ==> IsToken(r.value.version, VersionChar)
    ensures r.Some? ==> IsToken(r.value.fix, FixChar)
    ensures r.Some? ==> Lower(r.value.severity) in {"critical", "high"}
    ensures r.Some? <==>
      && (IsCveId(Trim(cells[0])) || IsGhsaId(Trim(cells[0])))
      && (Lower(Trim(cells[1])) == "critical" || Lower(Trim(cells[1])) == "high")
      && IsToken(Trim(cells[2]), PackageChar)
      && IsToken(Trim(cells[3]), VersionChar)
      && IsToken(Trim(cells[4]), FixChar)
      && Lower(Trim(cells[5])) == "false"
      && Lower(Trim(cells[6])) == "go"
    ensures r.Some? ==> r.value == Row(Trim(cells[1]), Trim(cells[2]), Trim(cells[3]), Trim(cells[4]))
  {
    var id, sev, pkg := Trim(cells[0]), Trim(cells[1]), Trim(cells[2]);
    var ver, fix, avail, eco := Trim(cells[3]), Trim(cells[4]), Trim(cells[5]), Trim(cells[6]);
    if && (IsCveId(id) || IsGhsaId(id))
       && (Lower(sev) == "critical" || Lower(sev) == "high")
       && IsToken(pkg, PackageChar)
       && IsToken(ver, VersionChar)
       && IsToken(fix, FixChar)
       && Lower(avail) == "false"
       && Lower(eco) == "go"
    then Some(Row(sev, pkg, ver, fix))
    else None
  }

  /** Leftmost match: the first bar `j` (counting from `from`) that opens
      seven matching cells closed by a bar. */
  function RowSearch(pieces: seq<string>, from: nat): (r: Option<Row>)
    ensures r.Some? ==> IsToken(r.value.pkg, PackageChar)
    ensures r.Some? ==> IsToken(r.value.fix, FixChar)
    decreases |pieces| - from
  {
    if from + 9 > |pieces| then None
    else
      match RowFromCells(pieces[from + 1..from + 8])
      case Some(row) => Some(row)
      case None => RowSearch(pieces, from + 1)
  }

  /** `pattern.search(line)` for the vulnerability-row pattern. */
  function MatchRow(line: string): (r: Option<Row>)
    ensures r.Some? ==> IsToken(r.value.pkg, PackageChar)
    ensures r.Some? ==> IsToken(r.value.fix, FixChar)
  {
    RowSearch(Split(line, Bar), 0)
  }

  /** A line made of text without bars, then seven cells between eight
      bars, then text without bars is matched exactly when its cells are:
      the groups are the trimmed cells. */
  lemma MatchRowOfCells(head: string, cells: seq<string>, tail: string)
    requires |cells| == 7
    requires Bar !in head && Bar !in tail
    requires forall i :: 0 <= i < 7 ==> Bar !in cells[i]
    ensures MatchRow(Join([head] + cells + [tail], Bar)) == RowFromCells(cells)
  {
    var parts := [head] + cells + [tail];
    assert forall i :: 0 <= i < |parts| ==> Bar !in parts[i] by {
      forall i | 0 <= i < |parts|
        ensures Bar !in parts[i]
      {
        if 1 <= i < 8 {
          assert parts[i] == cells[i - 1];
        }
      }
    }
    JoinSplit(parts, Bar);
    RowSearchOfNine(parts);
    assert parts[1..8] == cells;
  }

  /** A line made of text without bars, then seven matching cells between
      bars, then any text (more columns, say) is matched at those cells:
      the pattern is not anchored at the end of the line. */
  lemma MatchRowOfCellsAnyTail(head: string, cells: seq<string>, tail: string)
    requires |cells| == 7
    requires Bar !in head
    requires forall i :: 0 <= i < 7 ==> Bar !in cells[i]
    requires RowFromCells(cells).Some?
    ensures MatchRow(Join([head] + cells + [tail], Bar)) == RowFromCells(cells)
  {
    var pieces := Split(Join([head] + cells + [tail], Bar), Bar);
    SplitLeadingCells(head, cells, tail);
    RowSearchAtStart(pieces);
  }

  /** A matching first window is the one found. */
  lemma RowSearchAtStart(pieces: seq<string>)
    requires 9 <= |pieces|
    requires RowFromCells(pieces[1..8]).Some?
    ensures RowSearch(pieces, 0) == RowFromCells(pieces[1..8])
  {
  }

  /** Splitting such a line at the bars gives the leading text and the seven
      cells as its first eight pieces. */
  lemma SplitLeadingCells(head: string, cells: seq<string>, tail: string)
    requires |cells| == 7
    requires Bar !in head
    requires forall i :: 0 <= i < 7 ==> Bar !in cells[i]
    ensures 9 <= |Split(Join([head] + cells + [tail], Bar), Bar)|
    ensures Split(Join([head] + cells + [tail], Bar), Bar)[1..8] == cells
  {
    var parts := [head] + cells;
    assert forall i :: 0 <= i < |parts| ==> Bar !in parts[i] by {
      forall i | 0 <= i < |parts|
        ensures Bar !in parts[i]
      {
        if 1 <= i {
          assert parts[i] == cells[i - 1];
        }
      }
    }
    var pieces := parts + Split(tail, Bar);
    assert [head] + cells + [tail] == parts + [tail];
    SplitPrefix(parts, tail, Bar);
    assert pieces[1..8] == parts[1..8];
  }

  /** The seven cells after bar `t` match the row pattern. */
  predicate WindowMatches(pieces: seq<string>, t: nat) {
    t + 9 <= |pieces| && RowFromCells(pieces[t + 1..t + 8]).Some?
  }

  /** A window that does not match passes the search on to the next one. */
  lemma RowSearchSkip(pieces: seq<string>, from: nat)
    requires !WindowMatches(pieces, from)
    ensures RowSearch(pieces, from) == if from + 9 <= |pieces| then RowSearch(pieces, from + 1) else None
  {
  }

  /** Windows that do not match are passed over: the search from `from`
      gives what the search from `q` gives. */
  lemma {:induction false} RowSearchSkipTo(pieces: seq<string>, from: nat, q: nat)
    requires from <= q
    requires forall t :: from <= t < q ==> !WindowMatches(pieces, t)
    ensures RowSearch(pieces, from) == RowSearch(pieces, q)
    decreases q - from
  {
    if from < q {
      RowSearchSkip(pieces, from);
      RowSearchSkipTo(pieces, from + 1, q);
    }
  }

  /** A matching window is returned when the search reaches it. */
  lemma RowSearchHit(pieces: seq<string>, q: nat)
    requires WindowMatches(pieces, q)
    ensures RowSearch(pieces, q) == RowFromCells(pieces[q + 1..q + 8])
  {
  }

  /** The search returns the first matching window: when window `q`
      matches and none between `from` and `q` does, window `q` is found,
      however many columns come before it. */
  lemma RowSearchFirst(pieces: seq<string>, from: nat, q: nat)
    requires from <= q && q + 9 <= |pieces|
    requires forall t :: from <= t < q ==> !WindowMatches(pieces, t)
    requires WindowMatches(pieces, q)
    ensures RowSearch(pieces, from) == RowFromCells(pieces[q + 1..q + 8])
  {
    RowSearchSkipTo(pieces, from, q);
    RowSearchHit(pieces, q);
  }

  /** When no window from `from` on matches, the search finds nothing. */
  lemma {:induction false} RowSearchNone(pieces: seq<string>, from: nat)
    requires forall t :: from <= t ==> !WindowMatches(pieces, t)
    ensures RowSearch(pieces, from) == None
    decreases |pieces| - from
  {
    RowSearchSkip(pieces, from);
    if from + 9 <= |pieces| {
      RowSearchNone(pieces, from + 1);
    }
  }

  /** With exactly eight bars the only window is the seven cells between
      them. */
  lemma RowSearchOfNine(parts: seq<string>)
    requires |parts| == 9
    ensures RowSearch(parts, 0) == RowFromCells(parts[1..8])
  {
    assert RowSearch(parts, 1) == None;
  }

  /** A `v` is added in front unless the version already starts with a
      lower-case `v`. */
  function Normalize(fix: string): (r: string)
    ensures StartsWith(r, "v")
    ensures StartsWith(fix, "v") ==> r == fix
    ensures !StartsWith(fix, "v") ==> r == "v" + fix
  {
    if StartsWith(fix, "v") then fix else "v" + fix
  }

  /** The fix version used for a row: the first comma-separated candidate of
      the fix column, stripped and normalised. */
  function ChosenFix(fix: string): (r: string)
    requires AllOf(fix, FixChar)
    ensures StartsWith(r, "v")
    ensures AllOf(r, FixChar) && ',' !in r && '\n' !in r
    ensures r == Normalize(BeforeFirst(fix, ','))
  {
    var first := BeforeFirst(fix, ',');
    AllOfExcludes(Normalize(first), FixChar, '\n');
    assert forall i :: 0 <= i < |first| ==> In(first[i], FixChar) && !IsSpace(first[i]);
    Normalize(Trim(first))
  }

  /** What a matched row contributes: nothing when its package lies outside
      the namespace or its fix column is `none` in any letter case (whatever
      the severity); otherwise its package with the first candidate of the
      fix column, prefixed with `v` when missing. */
  function Contribution(row: Row): (r: Option<Candidate>)
    requires IsToken(row.pkg, PackageChar) && IsToken(row.fix, FixChar)
    ensures r.None? <==> !StartsWith(row.pkg, Namespace) || Lower(row.fix) == "none"
    ensures r.Some? ==> r.value.pkg == row.pkg && r.value.fix == Normalize(BeforeFirst(row.fix, ','))
    ensures r.Some? ==> StartsWith(r.value.fix, "v") && '\n' !in r.value.pkg && '\n' !in r.value.fix
  {
    if StartsWith(row.pkg, Namespace) && row.fix != [] && Lower(row.fix) != "none"
    then
      AllOfExcludes(row.pkg, PackageChar, '\n');
      Some(Candidate(row.pkg, ChosenFix(row.fix)))
    else None
  }

  /** The contribution of one report line to the fix set, if any. */
  function Qualify(line: string): (r: Option<Candidate>)
    ensures r.None? <==>
      || MatchRow(line).None?
      || !StartsWith(MatchRow(line).value.pkg, Namespace)
      || Lower(MatchRow(line).value.fix) == "none"
    ensures r.Some? ==>
      && MatchRow(line).Some?
      && r.value.pkg == MatchRow(line).value.pkg
      && r.value.fix == Normalize(BeforeFirst(MatchRow(line).value.fix, ','))
    ensures r.Some? ==>
      && StartsWith(r.value.pkg, Namespace) && StartsWith(r.value.fix, "v")
      && '\n' !in r.value.pkg && '\n' !in r.value.fix
  {
    match MatchRow(line)
    case None => None
    case Some(row) => Contribution(row)
  }

  /** What each line of the report offers, line by line. */
  function Offers(lines: seq<string>): (r: seq<Option<Candidate>>)
    ensures |r| == |lines|
  {
    if lines == [] then [] else Offers(lines[..|lines| - 1]) + [Qualify(lines[|lines| - 1])]
  }

  lemma {:induction false} OffersAt(lines: seq<string>, t: nat)
    requires t < |lines|
    ensures Offers(lines)[t] == Qualify(lines[t])
  {
    if t < |lines| - 1 {
      OffersAt(lines[..|lines| - 1], t);
    }
  }

  /** Some offer is for `pkg`. */
  ghost predicate Offered(offers: seq<Option<Candidate>>, pkg: string) {
    exists t :: 0 <= t < |offers| && offers[t].Some? && offers[t].value.pkg == pkg
  }

  /** `m` is the fix set of `offers`: its keys are exactly the offered
      packages, and each value is offered for its key and is not greater than
      any fix offered for that key. */
  ghost predicate IsFixSetOf(offers: seq<Option<Candidate>>, m: map<string, string>) {
    && (forall pkg :: pkg in m <==> Offered(offers, pkg))
    && (forall pkg :: pkg in m ==> Some(Candidate(pkg, m[pkg])) in offers)
    && (forall pkg, t :: pkg in m && 0 <= t < |offers| && offers[t].Some? && offers[t].value.pkg == pkg
          ==> !LexLess(offers[t].value.fix, m[pkg]))
  }

  /** A line that offers nothing, or offers a fix for a known package that
      is not textually smaller than the stored one, leaves the fix set as it
      is. */
  lemma FixSetKeep(offers: seq<Option<Candidate>>, o: Option<Candidate>, m: map<string, string>)
    requires IsFixSetOf(offers, m)
    requires o.Some? ==> o.value.pkg in m && !LexLess(o.value.fix, m[o.value.pkg])
    ensures IsFixSetOf(offers + [o], m)
  {
    var offers' := offers + [o];
    assert forall t :: 0 <= t < |offers| ==> offers'[t] == offers[t];
    assert offers'[|offers|] == o;
    assert forall pkg :: Offered(offers, pkg) ==> Offered(offers', pkg);
  }

  /** An offer for a new package adds it; an offer for a known package
      replaces the stored fix when it is textually smaller. */
  lemma FixSetUpdate(offers: seq<Option<Candidate>>, c: Candidate, m: map<string, string>)
    requires IsFixSetOf(offers, m)
    requires c.pkg !in m || LexLess(c.fix, m[c.pkg])
    ensures IsFixSetOf(offers + [Some(c)], m[c.pkg := c.fix])
  {
    var offers' := offers + [Some(c)];
    var m' := m[c.pkg := c.fix];
    assert forall t :: 0 <= t < |offers| ==> offers'[t] == offers[t];
    assert offers'[|offers|] == Some(c);
    assert forall pkg :: Offered(offers, pkg) ==> Offered(offers', pkg);
    assert forall pkg :: Offered(offers', pkg) ==> Offered(offers, pkg) || pkg == c.pkg;
    forall pkg, t | pkg in m' && 0 <= t < |offers'| && offers'[t].Some? && offers'[t].value.pkg == pkg
      ensures !LexLess(offers'[t].value.fix, m'[pkg])
    {
      if pkg == c.pkg && t < |offers| {
        var x := offers[t].value.fix;
        if LexLess(x, c.fix) {
          LexLessTransitive(x, c.fix, m[c.pkg]);
        }
      } else if pkg == c.pkg {
        LexLessIrreflexive(c.fix);
      }
    }
    assert Offered(offers', c.pkg);
  }

  /** The fix set is determined by the offers: two maps that both satisfy
      its definition are equal. */
  lemma FixSetUnique(offers: seq<Option<Candidate>>, m1: map<string, string>, m2: map<string, string>)
    requires IsFixSetOf(offers, m1) && IsFixSetOf(offers, m2)
    ensures m1 == m2
  {
    forall pkg | pkg in m1
      ensures pkg in m2 && m1[pkg] == m2[pkg]
    {
      assert Offered(offers, pkg);
      var t1 :| 0 <= t1 < |offers| && offers[t1] == Some(Candidate(pkg, m1[pkg]));
      var t2 :| 0 <= t2 < |offers| && offers[t2] == Some(Candidate(pkg, m2[pkg]));
      LexLessTotal(m1[pkg], m2[pkg]);
    }
  }

  /** A line that offers nothing (no row match, a package outside the
      namespace, or a `none` fix) leaves the map as it was: the fix set of
      the longer report is the same map. */
  lemma {:induction false} LineWithoutOfferIgnored(lines: seq<string>, line: string, m: map<string, string>)
    requires IsFixSetOf(Offers(lines), m)
    requires Qualify(line).None?
    ensures IsFixSetOf(Offers(lines + [line]), m)
  {
    assert (lines + [line])[..|lines|] == lines;
    FixSetKeep(Offers(lines), None, m);
  }

  /** parse_anchore_console over the report's lines. */
  method ParseAnchoreConsole(lines: seq<string>) returns (packages: map<string, string>)
    ensures IsFixSetOf(Offers(lines), packages)
    ensures forall pkg :: pkg in packages ==> StartsWith(pkg, Namespace) && StartsWith(packages[pkg], "v")
    ensures forall pkg :: pkg in packages ==> '\n' !in pkg && '\n' !in packages[pkg]
  {
    packages := map[];
    for i := 0 to |lines|
      invariant IsFixSetOf(Offers(lines[..i]), packages)
    {
      assert lines[..i + 1][..i] == lines[..i];
      ghost var seen := Offers(lines[..i]);
      ghost var offer := Qualify(lines[i]);
      assert Offers(lines[..i + 1]) == seen + [offer];
      var matched := MatchRow(lines[i]);
      if matched.Some? {
        var row := matched.value;
        if StartsWith(row.pkg, Namespace) && row.fix != [] && Lower(row.fix) != "none" {
          var chosenFix := ChosenFix(row.fix);
          assert offer == Some(Candidate(row.pkg, chosenFix));
          if row.pkg !in packages || LexLess(chosenFix, packages[row.pkg]) {
            FixSetUpdate(seen, Candidate(row.pkg, chosenFix), packages);
            packages := packages[row.pkg := chosenFix];
          } else {
            FixSetKeep(seen, offer, packages);
          }
        } else {
          FixSetKeep(seen, offer, packages);
        }
      } else {
        FixSetKeep(seen, offer, packages);
      }
    }
    assert lines[..|lines|] == lines;
    FixSetShape(lines, packages);
  }

  /** Every key of a fix set lies in the namespace, every value starts with
      `v`, and neither contains a line break. */
  lemma FixSetShape(lines: seq<string>, m: map<string, string>)
    requires IsFixSetOf(Offers(lines), m)
    ensures forall pkg :: pkg in m ==> StartsWith(pkg, Namespace) && StartsWith(m[pkg], "v")
    ensures forall pkg :: pkg in m ==> '\n' !in pkg && '\n' !in m[pkg]
  {
    forall pkg | pkg in m
      ensures StartsWith(pkg, Namespace) && StartsWith(m[pkg], "v")
      ensures '\n' !in pkg && '\n' !in m[pkg]
    {
      var t :| 0 <= t < |lines| && Offers(lines)[t] == Some(Candidate(pkg, m[pkg]));
      OffersAt(lines, t);
    }
  }

  /** Only the first comma-separated candidate counts: whatever follows the
      first comma is ignored. */
  lemma FirstCandidateWins(first: string, rest: string)
    requires AllOf(first, FixChar) && AllOf(rest, FixChar) && ',' !in first
    ensures ChosenFix(first + [','] + rest) == Normalize(first)
  {
    BeforeFirstOf(first, ',', rest);
  }

  /** `0.7.0,0.8.0` gives `v0.7.0`; the check for `v` is case-sensitive, so
      `V1` gives `vV1`. */
  lemma ChosenFixExamples()
    ensures Normalize(BeforeFirst("0.7.0,0.8.0", ',')) == "v0.7.0"
    ensures Normalize("v1.2") == "v1.2"
    ensures Normalize("V1") == "vV1"
  {
    assert "0.7.0,0.8.0" == "0.7.0" + [','] + "0.8.0";
    BeforeFirstOf("0.7.0", ',', "0.8.0");
  }

  /** Two qualifying offers `v0.9.0` and `v0.10.0` for one package leave
      `v0.10.0`, the textually smaller one. */
  lemma TieBreakIsTextual(pkg: string)
    ensures IsFixSetOf([Some(Candidate(pkg, "v0.9.0")), Some(Candidate(pkg, "v0.10.0"))], map[pkg := "v0.10.0"])
  {
    var first := Some(Candidate(pkg, "v0.9.0"));
    var second := Some(Candidate(pkg, "v0.10.0"));
    TextualVersionOrder();
    assert IsFixSetOf([], map[]);
    FixSetUpdate([], first.value, map[]);
    assert [] + [first] == [first];
    FixSetUpdate([first], second.value, map[pkg := "v0.9.0"]);
    assert [first] + [second] == [first, second];
  }

  /** A cell as the scanner prints it: the content between two spaces. */
  function Pad(x: string): string {
    [' '] + x + [' ']
  }

  /** `strip` on a padded cell gives the content back. */
  lemma TrimPadded(x: string)
    requires x != [] && !IsSpace(x[0]) && !IsSpace(x[|x| - 1])
    ensures Trim(Pad(x)) == x
  {
    var s := Pad(x);
    assert s[0] == ' ' && s[1] == x[0];
    assert Span(s, Space) == 1;
    var t := s[1..];
    assert t == x + [' '];
    assert t[|t| - 2] == x[|x| - 1];
    assert SpanBack(t, Space) == 1;
    assert t[..|t| - 1] == x;
  }

  /** A cell whose lower-case form is a word without whitespace at its ends
      has no whitespace at its ends either: folding never touches
      whitespace. */
  lemma LowerEnds(t: string, w: string)
    requires Lower(t) == w && w != [] && !IsSpace(w[0]) && !IsSpace(w[|w| - 1])
    ensures t != [] && !IsSpace(t[0]) && !IsSpace(t[|t| - 1])
  {
    assert Lower(t)[0] == LowerChar(t[0]);
    assert Lower(t)[|t| - 1] == LowerChar(t[|t| - 1]);
  }

  /** Padding adds only spaces. */
  lemma PadWithout(x: string, c: char)
    requires c != ' ' && c !in x
    ensures c !in Pad(x)
  {
  }

  /** A token drawn from a class without whitespace has no whitespace at
      its ends. */
  lemma TokenEnds(t: string, k: CharClass)
    requires IsToken(t, k) && k in {PackageChar, VersionChar, FixChar}
    ensures !IsSpace(t[0]) && !IsSpace(t[|t| - 1])
  {
    assert In(t[0], k) && In(t[|t| - 1], k);
  }

  /** A well-formed row, printed with one space around each cell, is
      matched and its groups are the cell contents. */
  lemma RowOfPaddedCells(cells: seq<string>, id: string, severity: string, pkg: string, version: string,
                         fix: string, avail: string, eco: string)
    requires |cells| == 7
    requires cells[0] == Pad(id) && cells[1] == Pad(severity) && cells[2] == Pad(pkg)
    requires cells[3] == Pad(version) && cells[4] == Pad(fix) && cells[5] == Pad(avail) && cells[6] == Pad(eco)
    requires IsCveId(id) || IsGhsaId(id)
    requires !IsSpace(id[|id| - 1])
    requires Lower(severity) == "critical" || Lower(severity) == "high"
    requires IsToken(pkg, PackageChar) && IsToken(version, VersionChar) && IsToken(fix, FixChar)
    requires Lower(avail) == "false" && Lower(eco) == "go"
    ensures RowFromCells(cells) == Some(Row(severity, pkg, version, fix))
  {
    assert !IsSpace(id[0]) by {
      assert Lower(id[..4])[0] == LowerChar(id[0]);
    }
    LowerEnds(severity, Lower(severity));
    LowerEnds(avail, Lower(avail));
    LowerEnds(eco, Lower(eco));
    TokenEnds(pkg, PackageChar);
    TokenEnds(version, VersionChar);
    TokenEnds(fix, FixChar);
    TrimPadded(id);
    TrimPadded(severity);
    TrimPadded(pkg);
    TrimPadded(version);
    TrimPadded(fix);
    TrimPadded(avail);
    TrimPadded(eco);
  }

  /** A report made of one line that offers `c` has the fix set
      `{c.pkg: c.fix}`. */
  lemma SingleOfferFixSet(line: string, c: Candidate)
    requires Qualify(line) == Some(c)
    ensures IsFixSetOf(Offers([line]), map[c.pkg := c.fix])
  {
    assert [line][..0] == [];
    assert Offers([line]) == [] + [Some(c)];
    assert IsFixSetOf([], map[]);
    FixSetUpdate([], c, map[]);
  }
}
