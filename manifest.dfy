/** The go.mod writer of parseAnchore.py (`generate_go_mod`): a fixed module
    header, then one `replace` directive per package in ascending package
    order, then the closing parenthesis. The file system is left out: the
    model produces the text the script writes. */
module Manifest {
  import opened Strings
  import opened Order

  /** The module path and Go version the written go.mod declares. */
  const ModulePath: string := "k8s.io/autoscaler/vertical-pod-autoscaler"
  const GoVersion: string := "1.24"

  const ModuleLine: string := "module " + ModulePath + "\n"
  const GoLine: string := "go " + GoVersion + "\n\n"
  const ReplaceOpen: string := "replace (" + "\n"
  const ReplaceClose: string := ")" + "\n"

  /** Everything written before the first directive. */
  function Header(): string {
    ModuleLine + GoLine + ReplaceOpen
  }

  /** The line `<pkg> => <pkg> <fix>` that pins `pkg` to `fix`. */
  function Directive(pkg: string, fix: string): string {
    pkg + " => " + pkg + " " + fix + "\n"
  }

  /** The directives for `keys`, in the order given. */
  function Directives(keys: seq<string>, m: map<string, string>): string
    requires forall i :: 0 <= i < |keys| ==> keys[i] in m
  {
    if keys == [] then []
    else
      var last := keys[|keys| - 1];
      Directives(keys[..|keys| - 1], m) + Directive(last, m[last])
  }

  /** The text of go.mod for `packages`: directives in ascending order of
      package name (`sorted(packages.items())`; the names are distinct keys,
      so the fix never takes part in the order). */
  ghost function Render(packages: map<string, string>): string {
    var keys := SortedKeys(packages.Keys);
    Header() + Directives(keys, packages) + ReplaceClose
  }

  /** `sorted` on the package names: the least remaining name is taken
      until none is left. */
  method SortKeys(keys: set<string>) returns (sorted: seq<string>)
    ensures sorted == SortedKeys(keys)
  {
    sorted := [];
    var rest := keys;
    while rest != {}
      invariant rest <= keys
      invariant StrictlySorted(sorted)
      invariant forall x :: x in sorted <==> x in keys && x !in rest
      invariant forall i, y :: 0 <= i < |sorted| && y in rest ==> LexLess(sorted[i], y)
      decreases |rest|
    {
      LeastExists(rest);
      var k :| k in rest && IsLeast(k, rest);
      sorted := sorted + [k];
      rest := rest - {k};
    }
    SortedUnique(sorted, SortedKeys(keys));
  }

  /** generate_go_mod: the header, the directives in ascending package
      order, and the closing line, written one after another. */
  method GenerateGoMod(packages: map<string, string>) returns (text: string)
    ensures text == Render(packages)
  {
    text := ModuleLine;
    text := text + GoLine;
    text := text + ReplaceOpen;
    var keys := SortKeys(packages.Keys);
    for i := 0 to |keys|
      invariant text == Header() + Directives(keys[..i], packages)
    {
      var pkg := keys[i];
      assert keys[..i + 1][..i] == keys[..i];
      AppendAssoc(Header(), Directives(keys[..i], packages), Directive(pkg, packages[pkg]));
      text := text + Directive(pkg, packages[pkg]);
    }
    assert keys[..|keys|] == keys;
    text := text + ReplaceClose;
  }

  /** Any ascending enumeration of the package names gives the same text:
      the output depends on the map alone, not on how it was built. */
  lemma RenderAnyOrder(packages: map<string, string>, keys: seq<string>)
    requires StrictlySorted(keys)
    requires forall x :: x in keys <==> x in packages
    ensures forall i :: 0 <= i < |keys| ==> keys[i] in packages
    ensures Render(packages) == Header() + Directives(keys, packages) + ReplaceClose
  {
    SortedUnique(keys, SortedKeys(packages.Keys));
  }

  /** Without packages the file is the header and the closing line. */
  lemma RenderEmpty()
    ensures Render(map[]) == Header() + ReplaceClose
  {
    var empty: map<string, string> := map[];
    assert SortedKeys(empty.Keys) == [];
  }

  /** The file starts with the module, Go and `replace (` lines and ends
      with `)`. */
  lemma RenderFrame(packages: map<string, string>)
    ensures StartsWith(Render(packages), Header())
    ensures |Render(packages)| >= |Header()| + |ReplaceClose|
    ensures Render(packages)[|Render(packages)| - |ReplaceClose|..] == ReplaceClose
  {
    var body := Directives(SortedKeys(packages.Keys), packages);
    AppendAssoc(Header(), body, ReplaceClose);
    AppendParts(Header(), body + ReplaceClose);
    AppendParts(Header() + body, ReplaceClose);
  }

  /** Each package is pinned by its own directive line, in the text. */
  lemma {:induction false} DirectiveListed(keys: seq<string>, m: map<string, string>, t: nat)
    requires forall i :: 0 <= i < |keys| ==> keys[i] in m
    requires t < |keys|
    ensures Occurs(Directive(keys[t], m[keys[t]]), Directives(keys, m))
    decreases |keys|
  {
    var prefix := keys[..|keys| - 1];
    var before := Directives(prefix, m);
    var last := Directive(keys[|keys| - 1], m[keys[|keys| - 1]]);
    if t == |keys| - 1 {
      assert Directives(keys, m) == before + last + [];
    } else {
      DirectiveListed(prefix, m, t);
      OccursWithin(Directive(keys[t], m[keys[t]]), before, [], last);
      assert [] + before + last == Directives(keys, m);
    }
  }

  /** Every package of the map appears as the directive pinning it to its
      fix. */
  lemma PackagePinned(packages: map<string, string>, pkg: string)
    requires pkg in packages
    ensures Occurs(Directive(pkg, packages[pkg]), Render(packages))
  {
    var keys := SortedKeys(packages.Keys);
    var t :| 0 <= t < |keys| && keys[t] == pkg;
    DirectiveListed(keys, packages, t);
    OccursWithin(Directive(pkg, packages[pkg]), Directives(keys, packages), Header(), ReplaceClose);
  }

  /** A directive is one line when neither name nor fix holds a line break. */
  lemma DirectiveIsOneLine(pkg: string, fix: string)
    requires '\n' !in pkg && '\n' !in fix
    ensures Count(Directive(pkg, fix), '\n') == 1
  {
    CountAbsent(pkg, '\n');
    CountAbsent(fix, '\n');
    CountAbsent(" => ", '\n');
    CountAbsent(" ", '\n');
    CountAppend(pkg, " => ", '\n');
    CountAppend(pkg + " => ", pkg, '\n');
    CountAppend(pkg + " => " + pkg, " ", '\n');
    CountAppend(pkg + " => " + pkg + " ", fix, '\n');
    CountAppend(pkg + " => " + pkg + " " + fix, "\n", '\n');
  }

  lemma {:induction false} DirectivesLineCount(keys: seq<string>, m: map<string, string>)
    requires forall i :: 0 <= i < |keys| ==> keys[i] in m
    requires forall i :: 0 <= i < |keys| ==> '\n' !in keys[i] && '\n' !in m[keys[i]]
    ensures Count(Directives(keys, m), '\n') == |keys|
    decreases |keys|
  {
    if keys == [] {
    } else {
      var last := keys[|keys| - 1];
      DirectivesLineCount(keys[..|keys| - 1], m);
      DirectiveIsOneLine(last, m[last]);
      CountAppend(Directives(keys[..|keys| - 1], m), Directive(last, m[last]), '\n');
    }
  }

  /** Text without a line break, then a line break: one line. */
  lemma OneLine(text: string)
    requires '\n' !in text
    ensures Count(text + "\n", '\n') == 1
  {
    CountAbsent(text, '\n');
    CountAppend(text, "\n", '\n');
  }

  lemma ModuleLineCount()
    ensures Count(ModuleLine, '\n') == 1
  {
    assert '\n' !in "module " + ModulePath;
    OneLine("module " + ModulePath);
  }

  /** The Go line is followed by an empty line. */
  lemma GoLineCount()
    ensures Count(GoLine, '\n') == 2
  {
    CountAbsent("go ", '\n');
    CountAbsent(GoVersion, '\n');
    CountAppend("go ", GoVersion, '\n');
    CountAppend("go " + GoVersion, "\n\n", '\n');
  }

  /** The header is four lines (one of them empty). */
  lemma HeaderLineCount()
    ensures Count(Header(), '\n') == 4
  {
    ModuleLineCount();
    GoLineCount();
    CountAbsent("replace (", '\n');
    CountAppend("replace (", "\n", '\n');
    CountAppend(ModuleLine, GoLine, '\n');
    CountAppend(ModuleLine + GoLine, ReplaceOpen, '\n');
  }

  /** With no line breaks inside names or fixes, go.mod has five fixed
      lines and one line per package. */
  lemma RenderLineCount(packages: map<string, string>)
    requires forall pkg :: pkg in packages ==> '\n' !in pkg && '\n' !in packages[pkg]
    ensures Count(Render(packages), '\n') == 5 + |packages|
  {
    var keys := SortedKeys(packages.Keys);
    assert |packages.Keys| == |packages|;
    DirectivesLineCount(keys, packages);
    HeaderLineCount();
    CountAbsent(")", '\n');
    CountAppend(")", "\n", '\n');
    CountAppend(Header(), Directives(keys, packages), '\n');
    CountAppend(Header() + Directives(keys, packages), ReplaceClose, '\n');
  }
}
