/** Text helpers shared by the report parsers: the character classes of the
    regular expressions (ASCII reading of `\s`, `\w`, `\d`), ASCII case folding,
    and the string operations the script uses (`startswith`, `strip`,
    `split(c)[0]`, `split(c)[-1]`), each characterised by its contract. */
module Strings {

  /** The box-drawing bar U+2502 that delimits the scanner's table cells. */
  const Bar: char := '\U{2502}'

  predicate StartsWith(s: string, prefix: string) {
    |prefix| <= |s| && s[..|prefix|] == prefix
  }

  /** Regrouping a concatenation. */
  lemma AppendAssoc(a: string, b: string, c: string)
    ensures a + b + c == a + (b + c)
  {
  }

  /** A concatenation starts with its first part and ends with its last. */
  lemma AppendParts(a: string, b: string)
    ensures StartsWith(a + b, a)
    ensures (a + b)[|a|..] == b
  {
  }

  /** `sub` occurs in `s`: `sub in s` on Python strings. */
  ghost predicate Occurs(sub: string, s: string) {
    exists before, after :: s == before + sub + after
  }

  /** An occurrence stays one when text is added around it. */
  lemma OccursWithin(sub: string, s: string, pre: string, post: string)
    requires Occurs(sub, s)
    ensures Occurs(sub, pre + s + post)
  {
    var before, after :| s == before + sub + after;
    assert pre + s + post == (pre + before) + sub + (after + post);
  }

  /** The character classes the report patterns use. `Space` is `\s`,
      `Digit` is `\d`, `Word` is `\w` (letters, digits, underscore); the
      bracketed classes of the patterns are spelled out; `Other(c)` is every
      character except `c`. */
  datatype CharClass =
    | Space
    | Digit
    | Word
    | PackageChar   // [\w\.\-/]
    | VersionChar   // [\w\.\-]
    | FixChar       // [\w\.\-,]
    | AdvisoryChar  // [\w-]
    | ImageChar     // [\w\.\-/:@]
    | Other(c: char)

  /** `\s` and `str.isspace()` on ASCII: space, `\t`, `\n`, `\v`, `\f`,
      `\r` and the separators U+001C to U+001F. */
  predicate IsSpace(c: char) {
    c == ' ' || ('\t' <= c <= '\r') || ('\U{1C}' <= c <= '\U{1F}')
  }

  predicate IsDigit(c: char) {
    '0' <= c <= '9'
  }

  predicate IsWord(c: char) {
    ('a' <= c <= 'z') || ('A' <= c <= 'Z') || IsDigit(c) || c == '_'
  }

  predicate In(c: char, k: CharClass) {
    match k
    case Space => IsSpace(c)
    case Digit => IsDigit(c)
    case Word => IsWord(c)
    case PackageChar => IsWord(c) || c == '.' || c == '-' || c == '/'
    case VersionChar => IsWord(c) || c == '.' || c == '-'
    case FixChar => IsWord(c) || c == '.' || c == '-' || c == ','
    case AdvisoryChar => IsWord(c) || c == '-'
    case ImageChar => IsWord(c) || c == '.' || c == '-' || c == '/' || c == ':' || c == '@'
    case Other(x) => c != x
  }

  predicate AllOf(s: string, k: CharClass) {
    forall i :: 0 <= i < |s| ==> In(s[i], k)
  }

  /** A character outside the class does not occur in a string drawn from it. */
  lemma AllOfExcludes(s: string, k: CharClass, c: char)
    requires AllOf(s, k) && !In(c, k)
    ensures c !in s
  {
  }

  /** Two strings drawn from a class concatenate to one drawn from it. */
  lemma AllOfAppend(a: string, b: string, k: CharClass)
    requires AllOf(a, k) && AllOf(b, k)
    ensures AllOf(a + b, k)
  {
    assert forall i :: |a| <= i < |a + b| ==> (a + b)[i] == b[i - |a|];
  }

  function LowerChar(c: char): (r: char)
    ensures 'A' <= c <= 'Z' ==> 'a' <= r <= 'z'
    ensures !('A' <= c <= 'Z') ==> r == c
  {
    if 'A' <= c <= 'Z' then (c as int + 32) as char else c
  }

  /** `str.lower()` on the ASCII range. */
  function Lower(s: string): (r: string)
    ensures |r| == |s|
    ensures forall i :: 0 <= i < |s| ==> r[i] == LowerChar(s[i])
  {
    if s == [] then [] else [LowerChar(s[0])] + Lower(s[1..])
  }

  /** `t` is the lower-case form of `s` when it is so character by
      character. */
  lemma LowerIs(s: string, t: string)
    requires |s| == |t|
    requires forall i :: 0 <= i < |s| ==> LowerChar(s[i]) == t[i]
    ensures Lower(s) == t
  {
  }

  /** Case-insensitive occurrence of the lower-case literal `lit` at `p`. */
  predicate CiHasAt(s: string, p: nat, lit: string) {
    p + |lit| <= |s| && Lower(s[p..p + |lit|]) == lit
  }

  /** Length of the longest prefix of `s` whose characters lie in `k`. */
  function Span(s: string, k: CharClass): (n: nat)
    ensures n <= |s|
    ensures forall i :: 0 <= i < n ==> In(s[i], k)
    ensures n < |s| ==> !In(s[n], k)
  {
    if s == [] || !In(s[0], k) then 0 else 1 + Span(s[1..], k)
  }

  /** A run drawn from `k`, then text not starting in `k`: the span is the
      run. */
  lemma SpanOf(a: string, b: string, k: CharClass)
    requires AllOf(a, k)
    requires b == [] || !In(b[0], k)
    ensures Span(a + b, k) == |a|
  {
    assert forall i :: 0 <= i < |a| ==> (a + b)[i] == a[i];
    assert b != [] ==> (a + b)[|a|] == b[0];
  }

  /** Length of the longest suffix of `s` whose characters lie in `k`. */
  function SpanBack(s: string, k: CharClass): (n: nat)
    ensures n <= |s|
    ensures forall i :: |s| - n <= i < |s| ==> In(s[i], k)
    ensures n < |s| ==> !In(s[|s| - n - 1], k)
  {
    if s == [] || !In(s[|s| - 1], k) then 0 else 1 + SpanBack(s[..|s| - 1], k)
  }

  /** `str.strip()`: leading and trailing whitespace removed. */
  function Trim(s: string): (r: string)
    ensures |r| <= |s|
    ensures r == [] || (!IsSpace(r[0]) && !IsSpace(r[|r| - 1]))
    ensures (forall i :: 0 <= i < |s| ==> !IsSpace(s[i])) ==> r == s
    ensures forall i :: 0 <= i < |r| ==> r[i] in s
    ensures exists a, b :: 0 <= a <= b <= |s| && r == s[a..b] && AllOf(s[..a], Space) && AllOf(s[b..], Space)
  {
    var a := Span(s, Space);
    var t := s[a..];
    var b := SpanBack(t, Space);
    assert t == [] || !IsSpace(t[0]);
    assert b < |t| || t == [];
    var e := a + |t| - b;
    assert AllOf(s[..a], Space) by {
      assert forall i :: 0 <= i < a ==> s[..a][i] == s[i];
    }
    assert AllOf(s[e..], Space) by {
      assert forall i :: 0 <= i < b ==> s[e..][i] == t[|t| - b + i];
    }
    assert t[..|t| - b] == s[a..e];
    t[..|t| - b]
  }

  /** `s.split(c)[0]`: the text before the first `c`, or all of `s`. */
  function BeforeFirst(s: string, c: char): (r: string)
    ensures |r| <= |s| && r == s[..|r|]
    ensures c !in r
    ensures |r| == |s| || s[|r|] == c
  {
    var n := Span(s, Other(c));
    s[..n]
  }

  /** `s.split(c)[-1]`: the text after the last `c`, or all of `s`. */
  function AfterLast(s: string, c: char): (r: string)
    ensures |r| <= |s| && r == s[|s| - |r|..]
    ensures c !in r
    ensures |r| == |s| || s[|s| - |r| - 1] == c
  {
    var n := SpanBack(s, Other(c));
    s[|s| - n..]
  }

  /** Without a `c` there is nothing to cut at either end. */
  lemma CutAbsent(s: string, c: char)
    requires c !in s
    ensures BeforeFirst(s, c) == s && AfterLast(s, c) == s
  {
    assert |BeforeFirst(s, c)| == |s|;
    assert |AfterLast(s, c)| == |s|;
  }

  /** Cutting at the first `c` gives back the text before it. */
  lemma BeforeFirstOf(s: string, c: char, t: string)
    requires c !in s
    ensures BeforeFirst(s + [c] + t, c) == s
  {
    var whole := s + [c] + t;
    var r := BeforeFirst(whole, c);
    assert whole[|s|] == c;
    assert forall i :: 0 <= i < |r| ==> whole[i] != c;
    assert forall i :: 0 <= i < |s| ==> whole[i] != c;
    assert |r| == |s|;
    assert r == whole[..|s|] == s;
  }

  /** Cutting after the last `c` gives back the text after it. */
  lemma AfterLastOf(p: string, c: char, s: string)
    requires c !in s
    ensures AfterLast(p + [c] + s, c) == s
  {
    var whole := p + [c] + s;
    var r := AfterLast(whole, c);
    assert whole[|whole| - |s| - 1] == c;
    assert forall i :: |whole| - |r| <= i < |whole| ==> whole[i] != c;
    assert forall i :: |whole| - |s| <= i < |whole| ==> whole[i] != c;
    assert |r| == |s|;
    assert r == whole[|whole| - |s|..] == s;
  }

  /** The pieces of `s` between occurrences of `sep`. */
  function Split(s: string, sep: char): (r: seq<string>)
    ensures |r| >= 1
    ensures forall i :: 0 <= i < |r| ==> sep !in r[i]
    decreases |s|
  {
    var n := Span(s, Other(sep));
    if n == |s| then [s] else [s[..n]] + Split(s[n + 1..], sep)
  }

  /** Splitting stops at the first separator. */
  lemma SplitCons(s: string, sep: char, t: string)
    requires sep !in s
    ensures Split(s + [sep] + t, sep) == [s] + Split(t, sep)
  {
    var whole := s + [sep] + t;
    var n := Span(whole, Other(sep));
    assert whole[|s|] == sep;
    assert forall i :: 0 <= i < |s| ==> In(whole[i], Other(sep));
    assert n == |s|;
    assert whole[..n] == s && whole[n + 1..] == t;
  }

  function Join(parts: seq<string>, sep: char): string
  {
    if parts == [] then []
    else if |parts| == 1 then parts[0]
    else parts[0] + [sep] + Join(parts[1..], sep)
  }

  /** Joining the pieces back with the separator gives the text again, so
      `Split` loses nothing: every cell and every bar of a line is accounted
      for. */
  lemma {:induction false} SplitJoin(s: string, sep: char)
    ensures Join(Split(s, sep), sep) == s
    decreases |s|
  {
    var n := Span(s, Other(sep));
    if n < |s| {
      SplitJoin(s[n + 1..], sep);
      assert s == s[..n] + [sep] + s[n + 1..];
    }
  }

  /** Splitting the joined pieces gives them back when none holds the
      separator. */
  lemma {:induction false} JoinSplit(parts: seq<string>, sep: char)
    requires |parts| >= 1
    requires forall i :: 0 <= i < |parts| ==> sep !in parts[i]
    ensures Split(Join(parts, sep), sep) == parts
    decreases |parts|
  {
    if |parts| == 1 {
      var n := Span(parts[0], Other(sep));
      assert forall i :: 0 <= i < |parts[0]| ==> In(parts[0][i], Other(sep));
      assert n == |parts[0]|;
    } else {
      JoinSplit(parts[1..], sep);
      SplitCons(parts[0], sep, Join(parts[1..], sep));
      assert parts == [parts[0]] + parts[1..];
    }
  }

  /** Separator-free pieces in front of any text split off one by one: the
      text behind them splits as it would on its own. */
  lemma {:induction false} SplitPrefix(parts: seq<string>, rest: string, sep: char)
    requires forall i :: 0 <= i < |parts| ==> sep !in parts[i]
    ensures Split(Join(parts + [rest], sep), sep) == parts + Split(rest, sep)
    decreases |parts|
  {
    var whole := parts + [rest];
    if parts == [] {
      assert whole == [rest];
    } else {
      var tailJoined := Join(whole[1..], sep);
      var restPieces := Split(rest, sep);
      assert Join(whole, sep) == parts[0] + [sep] + tailJoined by {
        assert whole[0] == parts[0];
      }
      assert Split(tailJoined, sep) == parts[1..] + restPieces by {
        assert whole[1..] == parts[1..] + [rest];
        SplitPrefix(parts[1..], rest, sep);
      }
      assert Split(parts[0] + [sep] + tailJoined, sep) == [parts[0]] + Split(tailJoined, sep) by {
        SplitCons(parts[0], sep, tailJoined);
      }
      assert parts == [parts[0]] + parts[1..];
    }
  }

  /** Number of occurrences of `c` in `s`. */
  function Count(s: string, c: char): nat
  {
    if s == [] then 0 else (if s[0] == c then 1 else 0) + Count(s[1..], c)
  }

  lemma {:induction false} CountAppend(a: string, b: string, c: char)
    ensures Count(a + b, c) == Count(a, c) + Count(b, c)
  {
    if a == [] {
      assert a + b == b;
    } else {
      assert (a + b)[1..] == a[1..] + b;
      CountAppend(a[1..], b, c);
    }
  }

  lemma {:induction false} CountAbsent(s: string, c: char)
    requires c !in s
    ensures Count(s, c) == 0
  {
    if s != [] {
      assert c !in s[1..];
      CountAbsent(s[1..], c);
    }
  }
}
