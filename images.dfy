/** The image correlator of parseAnchore.py (`extract_image_names`): a pass
    over the report that remembers the most recently declared image and,
    for each table row mentioning `golang.org/x/net`, collects that image's
    short name once, in order of first appearance, falling back to
    `unknown-image` when nothing was collected. */
module Images {
  import opened Wrappers
  import opened Strings

  /** The package whose rows tie an image to the findings. */
  const Watched: string := "golang.org/x/net"

  /** The name used when no image could be tied to a watched row. */
  const Fallback: string := "unknown-image"

  /** After the keyword at `q`: optional whitespace, then the longest
      non-empty run of `[\w\.\-/:@]`. */
  function ImageToken(line: string, q: nat): (r: Option<string>)
    requires q <= |line|
    ensures r.Some? ==> r.value != [] && AllOf(r.value, ImageChar)
  {
    var rest := line[q..];
    var w := Span(rest, Space);
    var n := Span(rest[w..], ImageChar);
    if n == 0 then None else Some(rest[w..][..n])
  }

  /** The image pattern tried at position `p`: first the `image:`
      alternative, then `Scanning image:`, both in any letter case. */
  function ImageAt(line: string, p: nat): (r: Option<string>)
    requires p <= |line|
    ensures r.Some? ==> r.value != [] && AllOf(r.value, ImageChar)
  {
    if CiHasAt(line, p, "image:") && ImageToken(line, p + 6).Some? then ImageToken(line, p + 6)
    else if CiHasAt(line, p, "scanning image:") then ImageToken(line, p + 15)
    else None
  }

  /** `image_pattern.search(line)`: the captured image reference at the
      leftmost position where the pattern matches. */
  function ImageSearch(line: string, p: nat): (r: Option<string>)
    requires p <= |line|
    ensures r.Some? ==> r.value != [] && AllOf(r.value, ImageChar)
    decreases |line| - p
  {
    if ImageAt(line, p).Some? then ImageAt(line, p)
    else if p == |line| then None
    else ImageSearch(line, p + 1)
  }

  function MatchImage(line: string): (r: Option<string>)
    ensures r.Some? ==> r.value != [] && AllOf(r.value, ImageChar)
  {
    ImageSearch(line, 0)
  }

  /** `vulnerability_pattern.search(line)`: a bar, later the watched package
      in any letter case, later another bar, with no line break in between. */
  predicate MentionsWatched(line: string) {
    exists k | 0 <= k < |line| ::
      exists j | 0 <= j <= k - |Watched| ::
        exists i | 0 <= i < j ::
          line[i] == Bar && CiHasAt(line, j, Watched) && line[k] == Bar && '\n' !in line[i..k]
  }

  /** The short image name: after the last `/`, before the first `:`. */
  function ShortName(image: string): (r: string)
    ensures '/' !in r && ':' !in r
    ensures exists i, j :: 0 <= i <= j <= |image| && r == image[i..j]
  {
    var tail := AfterLast(image, '/');
    var name := BeforeFirst(tail, ':');
    assert tail == image[|image| - |tail|..];
    assert name == image[|image| - |tail|..|image| - |tail| + |name|];
    name
  }

  /** The image cursor after reading `lines`: the image declared by the last
      line that declares one, if any. */
  function Cursor(lines: seq<string>): Option<string>
  {
    if lines == [] then None
    else match MatchImage(lines[|lines| - 1])
      case Some(image) => Some(image)
      case None => Cursor(lines[..|lines| - 1])
  }

  /** The short names collected by the watched rows of `lines`, one per
      watched row read while the cursor is set, repetitions included. */
  function Hits(lines: seq<string>): (r: seq<string>)
    ensures forall k :: 0 <= k < |r| ==> '/' !in r[k] && ':' !in r[k]
  {
    if lines == [] then []
    else
      var before := Hits(lines[..|lines| - 1]);
      if MentionsWatched(lines[|lines| - 1]) && Cursor(lines).Some?
      then before + [ShortName(Cursor(lines).value)]
      else before
  }

  predicate NoDuplicates(s: seq<string>) {
    forall a, b :: 0 <= a < b < |s| ==> s[a] != s[b]
  }

  /** Position of the first occurrence of `x` in `s`. */
  function FirstIndex(s: seq<string>, x: string): (r: nat)
    requires x in s
    ensures r < |s| && s[r] == x && x !in s[..r]
  {
    if s[0] == x then 0 else
      assert x in s[1..];
      var r := 1 + FirstIndex(s[1..], x);
      assert s[..r] == [s[0]] + s[1..][..r - 1];
      r
  }

  /** Appending never moves a first occurrence. */
  lemma {:induction false} FirstIndexAppend(s: seq<string>, t: seq<string>, y: string)
    requires y in s
    ensures FirstIndex(s + t, y) == FirstIndex(s, y)
  {
    if s[0] != y {
      assert (s + t)[1..] == s[1..] + t;
      assert y in s[1..];
      FirstIndexAppend(s[1..], t, y);
    }
  }

  /** `names` lists each element of `hits` once, in order of first
      appearance. */
  ghost predicate FirstOccurrences(names: seq<string>, hits: seq<string>) {
    && NoDuplicates(names)
    && (forall x :: x in names <==> x in hits)
    && (forall a, b :: 0 <= a < b < |names| ==> FirstIndex(hits, names[a]) < FirstIndex(hits, names[b]))
  }

  /** A hit already listed leaves the listing as it is. */
  lemma FirstOccurrencesRepeat(names: seq<string>, hits: seq<string>, x: string)
    requires FirstOccurrences(names, hits) && x in names
    ensures FirstOccurrences(names, hits + [x])
  {
    forall y | y in hits
      ensures FirstIndex(hits + [x], y) == FirstIndex(hits, y)
    {
      FirstIndexAppend(hits, [x], y);
    }
  }

  /** A new hit is listed last. */
  lemma FirstOccurrencesNew(names: seq<string>, hits: seq<string>, x: string)
    requires FirstOccurrences(names, hits) && x !in names
    ensures FirstOccurrences(names + [x], hits + [x])
  {
    var hits', names' := hits + [x], names + [x];
    forall y | y in hits
      ensures FirstIndex(hits', y) == FirstIndex(hits, y)
    {
      FirstIndexAppend(hits, [x], y);
    }
    assert x !in hits;
    assert hits'[..|hits|] == hits;
    assert FirstIndex(hits', x) == |hits|;
    forall a, b | 0 <= a < b < |names'|
      ensures FirstIndex(hits', names'[a]) < FirstIndex(hits', names'[b])
    {
      assert names'[a] in hits;
      if b < |names| {
        assert names'[b] in hits;
      }
    }
  }

  /** The cursor persists: lines that declare no image leave it as it was. */
  lemma {:induction false} CursorPersists(lines: seq<string>, more: seq<string>)
    requires forall k :: 0 <= k < |more| ==> MatchImage(more[k]).None?
    ensures Cursor(lines + more) == Cursor(lines)
    decreases |more|
  {
    if more != [] {
      var shorter := more[..|more| - 1];
      assert (lines + more)[|lines + more| - 1] == more[|more| - 1];
      assert MatchImage(more[|more| - 1]).None?;
      assert (lines + more)[..|lines + more| - 1] == lines + shorter;
      CursorPersists(lines, shorter);
    } else {
      assert lines + more == lines;
    }
  }

  /** The cursor is the image declared by the last line that declares
      one. */
  lemma CursorIsLastDeclaration(lines: seq<string>, k: nat)
    requires k < |lines| && MatchImage(lines[k]).Some?
    requires forall t :: k < t < |lines| ==> MatchImage(lines[t]).None?
    ensures Cursor(lines) == MatchImage(lines[k])
  {
    var upTo, more := lines[..k + 1], lines[k + 1..];
    assert upTo[|upTo| - 1] == lines[k];
    assert forall t :: 0 <= t < |more| ==> more[t] == lines[k + 1 + t];
    CursorPersists(upTo, more);
    assert upTo + more == lines;
  }

  /** A line that declares an image and mentions the watched package is
      credited to the image it declares, not to the previous cursor. */
  lemma DeclarationComesFirst(lines: seq<string>, line: string)
    requires MatchImage(line).Some? && MentionsWatched(line)
    ensures Hits(lines + [line]) == Hits(lines) + [ShortName(MatchImage(line).value)]
  {
    assert (lines + [line])[..|lines|] == lines;
  }

  /** Watched rows read before any image declaration contribute nothing. */
  lemma {:induction false} NoHitsBeforeDeclaration(lines: seq<string>)
    requires forall k :: 0 <= k < |lines| ==> MatchImage(lines[k]).None?
    ensures Cursor(lines) == None && Hits(lines) == []
  {
    if lines != [] {
      NoHitsBeforeDeclaration(lines[..|lines| - 1]);
    }
  }

  /** Reading one more line: the cursor moves to the image the line
      declares, if any, and then the line is a hit when it mentions the
      watched package while the cursor is set. */
  lemma HitsStep(lines: seq<string>, i: nat)
    requires i < |lines|
    ensures Cursor(lines[..i + 1]) == if MatchImage(lines[i]).Some? then MatchImage(lines[i]) else Cursor(lines[..i])
    ensures Hits(lines[..i + 1]) ==
      if MentionsWatched(lines[i]) && Cursor(lines[..i + 1]).Some?
      then Hits(lines[..i]) + [ShortName(Cursor(lines[..i + 1]).value)]
      else Hits(lines[..i])
  {
    assert lines[..i + 1][..i] == lines[..i];
  }

  /** extract_image_names over the report's lines. */
  method ExtractImageNames(lines: seq<string>) returns (names: seq<string>)
    ensures names != []
    ensures Hits(lines) == [] ==> names == [Fallback]
    ensures Hits(lines) != [] ==> FirstOccurrences(names, Hits(lines))
    ensures forall k :: 0 <= k < |names| ==> '/' !in names[k] && ':' !in names[k]
  {
    var imageNames: seq<string> := [];
    var currentImage: Option<string> := None;
    for i := 0 to |lines|
      invariant currentImage == Cursor(lines[..i])
      invariant FirstOccurrences(imageNames, Hits(lines[..i]))
    {
      HitsStep(lines, i);
      var imageMatch := MatchImage(lines[i]);
      if imageMatch.Some? {
        currentImage := imageMatch;
      }
      if MentionsWatched(lines[i]) && currentImage.Some? {
        var imageName := ShortName(currentImage.value);
        if imageName !in imageNames {
          FirstOccurrencesNew(imageNames, Hits(lines[..i]), imageName);
          imageNames := imageNames + [imageName];
        } else {
          FirstOccurrencesRepeat(imageNames, Hits(lines[..i]), imageName);
        }
      }
    }
    assert lines[..|lines|] == lines;
    FirstOccurrencesDrawn(imageNames, Hits(lines));
    names := if imageNames != [] then imageNames else [Fallback];
  }

  /** The listing is empty exactly when there are no hits, and every listed
      name is a hit. */
  lemma FirstOccurrencesDrawn(names: seq<string>, hits: seq<string>)
    requires FirstOccurrences(names, hits)
    ensures hits == [] <==> names == []
    ensures forall k :: 0 <= k < |names| ==> names[k] in hits
  {
    if names != [] {
      assert names[0] in hits;
    }
    if hits != [] {
      assert hits[0] in names;
    }
  }

  /** Registry and path are dropped at the last `/`, the tag at the first
      `:` after it. */
  lemma ShortNameOf(path: string, name: string, tag: string)
    requires '/' !in name && ':' !in name && '/' !in tag
    ensures ShortName(path + ['/'] + name + [':'] + tag) == name
  {
    assert path + ['/'] + name + [':'] + tag == path + ['/'] + (name + [':'] + tag);
    assert '/' !in name + [':'] + tag;
    AfterLastOf(path, '/', name + [':'] + tag);
    BeforeFirstOf(name, ':', tag);
  }

  /** Whatever precedes the name, if anything, ends in `/`; whatever follows
      it, if anything, is a `:` and a tag without `/`: the short name is the
      name. This covers `nginx:1.25`, `reg/foo` and a bare `foo`. */
  lemma ShortNameGeneral(pre: string, name: string, post: string)
    requires pre == [] || pre[|pre| - 1] == '/'
    requires post == [] || (post[0] == ':' && '/' !in post)
    requires '/' !in name && ':' !in name
    ensures ShortName(pre + name + post) == name
  {
    var tail := name + post;
    assert AfterLast(pre + name + post, '/') == tail by {
      assert '/' !in tail;
      if pre == [] {
        assert pre + name + post == tail;
        CutAbsent(tail, '/');
      } else {
        assert pre + name + post == pre[..|pre| - 1] + ['/'] + tail;
        AfterLastOf(pre[..|pre| - 1], '/', tail);
      }
    }
    assert BeforeFirst(tail, ':') == name by {
      if post == [] {
        assert tail == name;
        CutAbsent(name, ':');
      } else {
        assert tail == name + [':'] + post[1..];
        BeforeFirstOf(name, ':', post[1..]);
      }
    }
  }

  /** Optional whitespace, then a maximal run of image characters: the run
      is captured. */
  lemma ImageTokenOf(line: string, q: nat, ws: string, ref: string, rest: string)
    requires q <= |line| && line[q..] == ws + ref + rest
    requires AllOf(ws, Space)
    requires ref != [] && AllOf(ref, ImageChar)
    requires rest == [] || !In(rest[0], ImageChar)
    ensures ImageToken(line, q) == Some(ref)
  {
    var r := line[q..];
    assert r[|ws|] == ref[0] && !IsSpace(ref[0]);
    assert forall i :: 0 <= i < |ws| ==> In(r[i], Space);
    assert Span(r, Space) == |ws|;
    assert r[|ws|..] == ref + rest;
    var n := Span(ref + rest, ImageChar);
    assert forall i :: 0 <= i < |ref| ==> In((ref + rest)[i], ImageChar);
    assert rest != [] ==> (ref + rest)[|ref|] == rest[0];
    assert n == |ref|;
  }

  /** A line that starts with `Scanning image:` in any letter case declares
      the image reference that follows it. */
  lemma ScanningLineDeclares(keyword: string, ws: string, ref: string, rest: string)
    requires Lower(keyword) == "scanning image:"
    requires AllOf(ws, Space)
    requires ref != [] && AllOf(ref, ImageChar)
    requires rest == [] || !In(rest[0], ImageChar)
    ensures MatchImage(keyword + ws + ref + rest) == Some(ref)
  {
    var line := keyword + ws + ref + rest;
    assert line[..15] == keyword;
    assert Lower(line[0..6])[0] == Lower(keyword)[0] == 's';
    assert !CiHasAt(line, 0, "image:");
    assert CiHasAt(line, 0, "scanning image:");
    assert line[15..] == ws + ref + rest;
    ImageTokenOf(line, 15, ws, ref, rest);
  }

  /** A line that starts with `image:` in any letter case declares the
      image reference that follows it. */
  lemma ImageLineDeclares(keyword: string, ws: string, ref: string, rest: string)
    requires Lower(keyword) == "image:"
    requires AllOf(ws, Space)
    requires ref != [] && AllOf(ref, ImageChar)
    requires rest == [] || !In(rest[0], ImageChar)
    ensures MatchImage(keyword + ws + ref + rest) == Some(ref)
  {
    var line := keyword + ws + ref + rest;
    assert line[..6] == keyword;
    assert line[6..] == ws + ref + rest;
    ImageTokenOf(line, 6, ws, ref, rest);
  }

  /** When the pattern matches at no position from `p` on, the search
      finds nothing. */
  lemma {:induction false} ImageSearchNone(line: string, p: nat)
    requires p <= |line|
    requires forall r :: p <= r <= |line| ==> ImageAt(line, r).None?
    ensures ImageSearch(line, p) == None
    decreases |line| - p
  {
    if p < |line| {
      ImageSearchNone(line, p + 1);
    }
  }

  /** `Scanning image:` in any case holds `image:` in any case, nine
      characters in. */
  lemma ScanningHoldsImage(line: string, r: nat)
    requires CiHasAt(line, r, "scanning image:")
    ensures CiHasAt(line, r + 9, "image:")
  {
    var whole := line[r..r + 15];
    var part := line[r + 9..r + 15];
    forall i | 0 <= i < 6
      ensures Lower(part)[i] == "image:"[i]
    {
      assert part[i] == whole[i + 9];
      assert Lower(whole)[i + 9] == "scanning image:"[i + 9];
    }
  }

  /** A line without `image:` in any letter case declares no image: both
      alternatives of the pattern contain that keyword. */
  lemma NoKeywordNoImage(line: string)
    requires forall r :: 0 <= r <= |line| ==> !CiHasAt(line, r, "image:")
    ensures MatchImage(line) == None
  {
    forall r | 0 <= r <= |line|
      ensures ImageAt(line, r).None?
    {
      if CiHasAt(line, r, "scanning image:") {
        ScanningHoldsImage(line, r);
      }
    }
    ImageSearchNone(line, 0);
  }

  /** The search stops at the first position where the pattern matches. */
  lemma {:induction false} ImageSearchFirst(line: string, p: nat, q: nat)
    requires p <= q <= |line|
    requires ImageAt(line, q).Some?
    requires forall r :: p <= r < q ==> ImageAt(line, r).None?
    ensures ImageSearch(line, p) == ImageAt(line, q)
    decreases q - p
  {
    if p < q {
      ImageSearchFirst(line, p + 1, q);
    }
  }

  /** An indented line `image: <ref>`, the keyword in any letter case,
      declares the reference that follows it: no match starts inside the
      indentation. */
  lemma IndentedImageLineDeclares(indent: string, keyword: string, ws: string, ref: string, rest: string)
    requires AllOf(indent, Space)
    requires Lower(keyword) == "image:"
    requires AllOf(ws, Space)
    requires ref != [] && AllOf(ref, ImageChar)
    requires rest == [] || !In(rest[0], ImageChar)
    ensures MatchImage(indent + keyword + ws + ref + rest) == Some(ref)
  {
    var line := indent + keyword + ws + ref + rest;
    var q := |indent|;
    forall r | 0 <= r < q
      ensures ImageAt(line, r).None?
    {
      assert line[r] == indent[r];
      NoImageAtSpace(line, r);
    }
    assert ImageAt(line, q) == Some(ref) by {
      assert line[q..q + 6] == keyword;
      assert line[q + 6..] == ws + ref + rest;
      ImageTokenOf(line, q + 6, ws, ref, rest);
    }
    ImageSearchFirst(line, 0, q);
  }

  /** Neither alternative of the pattern starts at a whitespace character. */
  lemma NoImageAtSpace(line: string, r: nat)
    requires r < |line| && IsSpace(line[r])
    ensures ImageAt(line, r).None?
  {
    assert r + 6 <= |line| ==> Lower(line[r..r + 6])[0] == LowerChar(line[r]);
    assert r + 15 <= |line| ==> Lower(line[r..r + 15])[0] == LowerChar(line[r]);
  }

  /** A bar, then text holding the watched package in any letter case,
      then another bar, with no line break in between: the line mentions
      the watched package. */
  lemma MentionsWatchedOf(pre: string, name: string, post: string, rest: string)
    requires Lower(name) == Watched
    requires '\n' !in pre && '\n' !in name && '\n' !in post
    ensures MentionsWatched([Bar] + pre + name + post + [Bar] + rest)
  {
    var head, tail := [Bar] + pre, post + [Bar] + rest;
    var line := head + name + tail;
    assert line == [Bar] + pre + name + post + [Bar] + rest;
    var j := |head|;
    var k := j + |name| + |post|;
    assert line[j..j + |name|] == name;
    assert CiHasAt(line, j, Watched);
    assert line[k] == Bar;
    assert line[0..k] == [Bar] + pre + name + post;
    assert '\n' !in line[0..k];
    assert |name| == |Watched| && 0 < j <= k - |Watched| && k < |line|;
    assert line[0] == Bar;
  }

  /** A line that declares an image without mentioning the watched package,
      then a watched row that declares none: one hit, the declared image's
      short name. */
  lemma DeclarationThenRow(decl: string, row: string)
    requires MatchImage(decl).Some? && !MentionsWatched(decl)
    requires MatchImage(row).None? && MentionsWatched(row)
    ensures Cursor([decl, row]) == MatchImage(decl)
    ensures Hits([decl, row]) == [ShortName(MatchImage(decl).value)]
  {
    var lines := [decl, row];
    assert lines[..0] == [] && lines[..1] == [decl] && lines[..2] == lines;
    HitsStep(lines, 0);
    HitsStep(lines, 1);
  }
}
