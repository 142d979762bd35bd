/** The pieces of `java.lang.String` that the book forms use: `trim`,
    `split` on a single character and on the pattern `\s+` (with Java's
    default of dropping trailing empty strings), and `Collectors.joining`. */
module JavaStrings {

  /** A character `trim` removes: any code point up to and including U+0020. */
  predicate IsTrimmed(c: char) {
    c <= ' '
  }

  /** A character the regular expression `\s` matches. */
  predicate IsSpace(c: char) {
    c == ' ' || c == '\t' || c == '\n' || c == '\r' || c as int == 0x0B || c as int == 0x0C
  }

  /** Every character of `s` is one `trim` removes. */
  predicate Blank(s: string) {
    forall k :: 0 <= k < |s| ==> IsTrimmed(s[k])
  }

  /** `s` without its leading characters up to U+0020: a suffix of `s`
      reached by dropping only such characters. */
  function TrimStart(s: string): (r: string)
    ensures r == [] || !IsTrimmed(r[0])
    ensures |r| <= |s| && r == s[|s| - |r|..]
    ensures forall k :: 0 <= k < |s| - |r| ==> IsTrimmed(s[k])
  {
    if s != [] && IsTrimmed(s[0]) then TrimStart(s[1..]) else s
  }

  /** `s` without its trailing characters up to U+0020: a prefix of `s`
      reached by dropping only such characters. */
  function TrimEnd(s: string): (r: string)
    ensures r == [] || !IsTrimmed(r[|r| - 1])
    ensures |r| <= |s| && r == s[..|r|]
    ensures forall k :: |r| <= k < |s| ==> IsTrimmed(s[k])
  {
    if s != [] && IsTrimmed(s[|s| - 1]) then TrimEnd(s[..|s| - 1]) else s
  }

  /** `s.trim()`: neither starts nor ends with a character up to U+0020;
      `TrimSubstring` shows it is what is left of `s` once such characters
      are dropped at both ends. */
  function Trim(s: string): (r: string)
    ensures r == [] || (!IsTrimmed(r[0]) && !IsTrimmed(r[|r| - 1]))
    ensures |r| <= |s|
  {
    var t := TrimStart(s);
    var r := TrimEnd(t);
    assert r != [] ==> r[0] == t[0];
    r
  }

  /** `s.trim()` is the substring of `s` between a blank prefix and a blank
      suffix. */
  lemma TrimSubstring(s: string)
    ensures var r := Trim(s);
            exists i :: 0 <= i <= |s| - |r| && Blank(s[..i]) && r == s[i..][..|r|] && Blank(s[i..][|r|..])
  {
    var t := TrimStart(s);
    var r := TrimEnd(t);
    var i := |s| - |t|;
    TrimStartBlank(s);
    TrimEndBlank(t);
    assert t == s[i..];
    assert r == s[i..][..|r|];
    assert 0 <= i <= |s| - |r| && Blank(s[..i]) && r == s[i..][..|r|] && Blank(s[i..][|r|..]);
  }

  /** What `TrimStart` drops is blank. */
  lemma TrimStartBlank(s: string)
    ensures Blank(s[..|s| - |TrimStart(s)|])
  {
    var i := |s| - |TrimStart(s)|;
    forall k | 0 <= k < i ensures IsTrimmed(s[..i][k]) {
      assert s[..i][k] == s[k];
    }
  }

  /** What `TrimEnd` drops is blank. */
  lemma TrimEndBlank(t: string)
    ensures Blank(t[|TrimEnd(t)|..])
  {
    var n := |TrimEnd(t)|;
    forall k | 0 <= k < |t| - n ensures IsTrimmed(t[n..][k]) {
      assert t[n..][k] == t[n + k];
    }
  }

  /** The list with its trailing empty strings removed. */
  function DropTrailingEmpty(ps: seq<string>): (r: seq<string>)
    ensures |r| <= |ps| && r == ps[..|r|]
    ensures r == [] || r[|r| - 1] != ""
    ensures forall k :: |r| <= k < |ps| ==> ps[k] == ""
  {
    if ps != [] && ps[|ps| - 1] == "" then DropTrailingEmpty(ps[..|ps| - 1]) else ps
  }

  /** The strings between the occurrences of `sep`, empty ones included. */
  function Pieces(s: string, sep: char): (r: seq<string>)
    ensures |r| >= 1
  {
    if s == [] then [""]
    else if s[0] == sep then [""] + Pieces(s[1..], sep)
    else
      var p := Pieces(s[1..], sep);
      [[s[0]] + p[0]] + p[1..]
  }

  /** `s.split(String.valueOf(sep))`: with no occurrence of `sep` the result
      is `[s]` itself, even for the empty string; otherwise the pieces
      without the trailing empty ones. */
  function Split(s: string, sep: char): seq<string> {
    if sep !in s then [s] else DropTrailingEmpty(Pieces(s, sep))
  }

  /** When the last piece is not empty, `split` keeps every piece. */
  lemma SplitAllPieces(s: string, sep: char)
    requires Pieces(s, sep)[|Pieces(s, sep)| - 1] != ""
    ensures Split(s, sep) == Pieces(s, sep)
  {
    if sep !in s {
      PiecesNone(s, sep);
    }
  }

  /** `s` with its leading `\s` characters removed: a suffix of `s` reached
      by dropping only such characters. */
  function SkipSpaces(s: string): (r: string)
    ensures r == [] || !IsSpace(r[0])
    ensures |r| <= |s| && r == s[|s| - |r|..]
    ensures forall k :: 0 <= k < |s| - |r| ==> IsSpace(s[k])
  {
    if s != [] && IsSpace(s[0]) then SkipSpaces(s[1..]) else s
  }

  /** No character of `w` is one `\s` matches. */
  predicate SpaceFree(w: string) {
    forall k :: 0 <= k < |w| ==> !IsSpace(w[k])
  }

  /** `s` with each maximal run of `\s` characters replaced by one space. */
  function Collapse(s: string): string
    decreases |s|
  {
    if s == [] then []
    else if IsSpace(s[0]) then [' '] + Collapse(SkipSpaces(s[1..]))
    else [s[0]] + Collapse(s[1..])
  }

  /** The strings between the maximal runs of `\s` characters, with an empty
      one before a leading run and after a trailing run: no segment holds a
      space, only the first and the last can be empty, and joined with single
      spaces they give `s` with its runs collapsed. */
  function Segments(s: string): (r: seq<string>)
    ensures |r| >= 1
    ensures s != [] && !IsSpace(s[0]) ==> r[0] != ""
    decreases |s|
  {
    if s == [] then [""]
    else if IsSpace(s[0]) then [""] + Segments(SkipSpaces(s[1..]))
    else
      var p := Segments(s[1..]);
      [[s[0]] + p[0]] + p[1..]
  }

  /** The segments are the maximal runs without whitespace: no segment holds
      a `\s` character, and only the first and the last can be empty. */
  lemma {:induction false} SegmentsAreRuns(s: string)
    ensures forall j :: 0 <= j < |Segments(s)| ==> SpaceFree(Segments(s)[j])
    ensures forall j :: 0 < j < |Segments(s)| - 1 ==> Segments(s)[j] != ""
    decreases |s|
  {
    if s != [] {
      if IsSpace(s[0]) {
        var t := SkipSpaces(s[1..]);
        SegmentsAreRuns(t);
        assert Segments(s) == [""] + Segments(t);
      } else {
        var p := Segments(s[1..]);
        SegmentsAreRuns(s[1..]);
        assert Segments(s) == [[s[0]] + p[0]] + p[1..];
        assert SpaceFree([s[0]] + p[0]) by {
          forall k | 0 <= k < |[s[0]] + p[0]| ensures !IsSpace(([s[0]] + p[0])[k]) {
            if k > 0 {
              assert ([s[0]] + p[0])[k] == p[0][k - 1];
            }
          }
        }
      }
    }
  }

  /** Joined with single spaces, the segments give `s` with each run of
      whitespace collapsed to one space; with `SpaceFree` this fixes every
      segment. */
  lemma {:induction false} SegmentsCollapse(s: string)
    ensures Join(Segments(s), " ") == Collapse(s)
    decreases |s|
  {
    if s != [] {
      if IsSpace(s[0]) {
        var q := Segments(SkipSpaces(s[1..]));
        SegmentsCollapse(SkipSpaces(s[1..]));
        JoinEmptyHead(q, " ");
      } else {
        var p := Segments(s[1..]);
        SegmentsCollapse(s[1..]);
        JoinHead(s[0], p, " ");
      }
    }
  }

  /** An empty first string contributes only its separator. */
  lemma JoinEmptyHead(q: seq<string>, sep: string)
    requires |q| >= 1
    ensures Join([""] + q, sep) == sep + Join(q, sep)
  {
    assert ([""] + q)[0] == "" && ([""] + q)[1..] == q;
  }

  /** Prepending a character to the first string prepends it to the join. */
  lemma JoinHead(c: char, p: seq<string>, sep: string)
    requires |p| >= 1
    ensures Join([[c] + p[0]] + p[1..], sep) == [c] + Join(p, sep)
  {
    var r := [[c] + p[0]] + p[1..];
    assert r[0] == [c] + p[0] && r[1..] == p[1..];
    if |p| > 1 {
      assert Join(r, sep) == [c] + p[0] + sep + Join(p[1..], sep);
      assert Join(p, sep) == p[0] + sep + Join(p[1..], sep);
    }
  }

  predicate HasSpace(s: string) {
    exists k :: 0 <= k < |s| && IsSpace(s[k])
  }

  /** `s.split("\\s+")`: `[s]` itself when there is no whitespace, otherwise the
      segments without the trailing empty ones; no part holds a space. */
  function SplitSpaces(s: string): (r: seq<string>)
    ensures s == [] || !IsSpace(s[0]) ==> |r| >= 1
    ensures forall j :: 0 <= j < |r| ==> SpaceFree(r[j])
    ensures !HasSpace(s) ==> r == [s]
    ensures HasSpace(s) ==>
              |r| <= |Segments(s)| && r == Segments(s)[..|r|] && (r == [] || r[|r| - 1] != "") &&
              forall k :: |r| <= k < |Segments(s)| ==> Segments(s)[k] == ""
  {
    if !HasSpace(s) then [s] else SegmentsAreRuns(s); DropTrailingEmpty(Segments(s))
  }

  /** `Collectors.joining(sep)`. */
  function Join(xs: seq<string>, sep: string): string {
    if xs == [] then ""
    else if |xs| == 1 then xs[0]
    else xs[0] + sep + Join(xs[1..], sep)
  }

  /** Splitting at the first separator. */
  lemma {:induction false} PiecesAt(a: string, b: string, sep: char)
    requires sep !in a
    ensures Pieces(a + [sep] + b, sep) == [a] + Pieces(b, sep)
  {
    if a == [] {
      assert a + [sep] + b == [sep] + b;
      assert ([sep] + b)[1..] == b;
    } else {
      assert (a + [sep] + b)[1..] == a[1..] + [sep] + b;
      PiecesAt(a[1..], b, sep);
      assert [a[0]] + a[1..] == a;
    }
  }

  /** A string without the separator is one piece. */
  lemma {:induction false} PiecesNone(a: string, sep: char)
    requires sep !in a
    ensures Pieces(a, sep) == [a]
  {
    if a != [] {
      PiecesNone(a[1..], sep);
      assert [a[0]] + a[1..] == a;
    }
  }

  /** A word followed by the rest: the word starts the first segment. */
  lemma {:induction false} SegmentsWord(w: string, rest: string)
    requires SpaceFree(w)
    ensures Segments(w + rest) == [w + Segments(rest)[0]] + Segments(rest)[1..]
  {
    var q := Segments(rest);
    if w == [] {
      assert w + rest == rest;
      assert w + q[0] == q[0];
      assert [q[0]] + q[1..] == q;
    } else {
      assert (w + rest)[0] == w[0];
      assert (w + rest)[1..] == w[1..] + rest;
      SegmentsWord(w[1..], rest);
      var p := Segments(w[1..] + rest);
      assert p == [w[1..] + q[0]] + q[1..];
      assert p[0] == w[1..] + q[0] && p[1..] == q[1..];
      assert [w[0]] + (w[1..] + q[0]) == w + q[0];
    }
  }

  /** A word without spaces is a single segment. */
  lemma {:induction false} SegmentsOfWord(w: string)
    requires SpaceFree(w)
    ensures Segments(w) == [w]
    decreases |w|
  {
    if w != [] {
      assert SpaceFree(w[1..]) by {
        forall k | 0 <= k < |w[1..]| ensures !IsSpace(w[1..][k]) {
          assert w[1..][k] == w[k + 1];
        }
      }
      SegmentsOfWord(w[1..]);
      assert [w[0]] + w[1..] == w;
    }
  }

  /** A single space and then a word: an empty segment and the word. */
  lemma SegmentsSpaceWord(l: string)
    requires SpaceFree(l)
    ensures Segments([' '] + l) == ["", l]
  {
    SegmentsLeadSpace(l);
    SegmentsOfWord(l);
  }

  /** A space before a string that starts with no space opens an empty
      segment. */
  lemma SegmentsLeadSpace(l: string)
    requires l == [] || !IsSpace(l[0])
    ensures Segments([' '] + l) == [""] + Segments(l)
  {
    assert ([' '] + l)[1..] == l;
  }

  /** Splitting two words separated by one space gives the two words. */
  lemma SplitTwoWords(f: string, l: string)
    requires f != [] && l != []
    requires SpaceFree(f)
    requires SpaceFree(l)
    ensures SplitSpaces(f + [' '] + l) == [f, l]
  {
    var s := f + [' '] + l;
    assert s == f + ([' '] + l);
    assert IsSpace(s[|f|]);
    SegmentsSpaceWord(l);
    SegmentsWord(f, [' '] + l);
    assert f + "" == f;
    assert Segments(s) == [f, l];
  }

  /** A word without spaces splits to itself. */
  lemma SplitOneWord(f: string)
    requires SpaceFree(f)
    ensures SplitSpaces(f) == [f]
  {
  }
}
