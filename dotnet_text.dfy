/**
 * The parts of .NET's string API that the pose-message parser relies on:
 * `String.Split` over a set of separator characters, the
 * `StringSplitOptions.RemoveEmptyEntries` filter and `String.Trim()`.
 */
module DotNetText {

  /**
   * `Char.IsWhiteSpace`: the Unicode space, line and paragraph separators,
   * the control characters U+0009 to U+000D, and U+0085.
   */
  predicate IsWhiteSpace(c: char)
  {
    || c == ' ' || '\t' <= c <= '\r' || c == '\U{85}' || c == '\U{A0}' || c == '\U{1680}'
    || '\U{2000}' <= c <= '\U{200A}' || c == '\U{2028}' || c == '\U{2029}'
    || c == '\U{202F}' || c == '\U{205F}' || c == '\U{3000}'
  }

  predicate NoSeparator(s: string, seps: set<char>)
  {
    forall i :: 0 <= i < |s| ==> s[i] !in seps
  }

  /** The separator characters of `s`, in order. */
  function SeparatorsIn(s: string, seps: set<char>): (r: string)
    ensures forall i :: 0 <= i < |r| ==> r[i] in seps
  {
    if |s| == 0 then ""
    else if s[0] in seps then [s[0]] + SeparatorsIn(s[1..], seps)
    else SeparatorsIn(s[1..], seps)
  }

  /** `pieces[0] + glue[0] + pieces[1] + glue[1] + ... + pieces[n]`. */
  function Interleave(pieces: seq<string>, glue: string): string
    requires |pieces| == |glue| + 1
  {
    if |glue| == 0 then pieces[0]
    else pieces[0] + [glue[0]] + Interleave(pieces[1..], glue[1..])
  }

  /**
   * `s.Split(seps)` with no options: the maximal runs of non-separator
   * characters between separators, empty runs included, so that there is
   * always one piece more than there are separators.
   */
  function Split(s: string, seps: set<char>): (pieces: seq<string>)
    ensures |pieces| == |SeparatorsIn(s, seps)| + 1
    ensures forall k :: 0 <= k < |pieces| ==> NoSeparator(pieces[k], seps)
  {
    if |s| == 0 then [""]
    else
      var rest := Split(s[1..], seps);
      if s[0] in seps then [""] + rest
      else [[s[0]] + rest[0]] + rest[1..]
  }

  /** Splitting loses nothing: the pieces and the separators rebuild the text. */
  lemma {:induction false} SplitRebuilds(s: string, seps: set<char>)
    ensures Interleave(Split(s, seps), SeparatorsIn(s, seps)) == s
  {
    if |s| > 0 {
      var rest := Split(s[1..], seps);
      var glue := SeparatorsIn(s[1..], seps);
      SplitRebuilds(s[1..], seps);
      if s[0] in seps {
        assert Split(s, seps)[1..] == rest;
        assert s == [s[0]] + s[1..];
      } else {
        var pieces := Split(s, seps);
        assert pieces[1..] == rest[1..];
        if |glue| == 0 {
          assert s == [s[0]] + rest[0];
        } else {
          assert Interleave(rest, glue) == rest[0] + [glue[0]] + Interleave(rest[1..], glue[1..]);
          assert s == [s[0]] + s[1..];
        }
      }
    }
  }

  /** `String.Join(c, pieces)`. */
  function Join(pieces: seq<string>, c: char): string
    requires |pieces| > 0
  {
    Interleave(pieces, seq(|pieces| - 1, _ => c))
  }

  lemma {:induction false} SeparatorsAllEqual(s: string, c: char)
    ensures SeparatorsIn(s, {c}) == seq(|SeparatorsIn(s, {c})|, _ => c)
  {
    if |s| > 0 {
      SeparatorsAllEqual(s[1..], c);
    }
  }

  /** With one separator character, `Join` undoes `Split`. */
  lemma SplitJoin(s: string, c: char)
    ensures Join(Split(s, {c}), c) == s
  {
    SplitRebuilds(s, {c});
    SeparatorsAllEqual(s, c);
  }

  function Concat(pieces: seq<string>): string
  {
    if |pieces| == 0 then "" else pieces[0] + Concat(pieces[1..])
  }

  /**
   * `StringSplitOptions.RemoveEmptyEntries`: the pieces in order, without
   * the empty ones.
   */
  function RemoveEmpty(pieces: seq<string>): (r: seq<string>)
    ensures |r| <= |pieces|
    ensures forall k :: 0 <= k < |r| ==> r[k] != ""
    ensures forall p :: p in r <==> p in pieces && p != ""
    ensures Concat(r) == Concat(pieces)
  {
    if |pieces| == 0 then []
    else if pieces[0] == "" then RemoveEmpty(pieces[1..])
    else [pieces[0]] + RemoveEmpty(pieces[1..])
  }

  /** `RemoveEmpty` keeps a single piece exactly when it is not empty. */
  lemma RemoveEmptySingle(p: string)
    ensures RemoveEmpty([p]) == if p == "" then [] else [p]
  {
    assert [p][1..] == [];
  }

  /**
   * `RemoveEmpty` works piece by piece: filtering a concatenation filters
   * each part, so the kept pieces stay in their original order.
   */
  lemma {:induction false} RemoveEmptyAppend(a: seq<string>, b: seq<string>)
    ensures RemoveEmpty(a + b) == RemoveEmpty(a) + RemoveEmpty(b)
  {
    if |a| > 0 {
      assert (a + b)[0] == a[0];
      assert (a + b)[1..] == a[1..] + b;
      RemoveEmptyAppend(a[1..], b);
    } else {
      assert a + b == b;
    }
  }

  /** The characters of `s` that are not separators, in order. */
  function Without(s: string, seps: set<char>): (r: string)
    ensures NoSeparator(r, seps)
  {
    if |s| == 0 then ""
    else if s[0] in seps then Without(s[1..], seps)
    else [s[0]] + Without(s[1..], seps)
  }

  lemma {:induction false} ConcatSplit(s: string, seps: set<char>)
    ensures Concat(Split(s, seps)) == Without(s, seps)
  {
    if |s| > 0 {
      var rest := Split(s[1..], seps);
      ConcatSplit(s[1..], seps);
      if s[0] in seps {
        assert Split(s, seps)[1..] == rest;
      } else {
        var pieces := Split(s, seps);
        assert pieces[1..] == rest[1..];
        assert Concat(rest) == rest[0] + Concat(rest[1..]);
      }
    }
  }

  predicate AllSeparators(g: string, seps: set<char>)
  {
    forall i :: 0 <= i < |g| ==> g[i] in seps
  }

  /** `gaps[0] + pieces[0] + gaps[1] + ... + pieces[n - 1] + gaps[n]`. */
  function Weave(gaps: seq<string>, pieces: seq<string>): string
    requires |gaps| == |pieces| + 1
  {
    if |pieces| == 0 then gaps[0] else gaps[0] + pieces[0] + Weave(gaps[1..], pieces[1..])
  }

  /**
   * `s` is `pieces` woven between `gaps`: the pieces are non-empty and
   * separator-free, the gaps hold only separators, and the gaps between two
   * pieces are not empty. So each piece is a maximal run of non-separator
   * characters of `s`, and there is one piece per such run.
   */
  predicate MaximalRuns(s: string, seps: set<char>, gaps: seq<string>, pieces: seq<string>)
  {
    && |gaps| == |pieces| + 1
    && (forall k :: 0 <= k < |pieces| ==> pieces[k] != "" && NoSeparator(pieces[k], seps))
    && (forall k :: 0 <= k < |gaps| ==> AllSeparators(gaps[k], seps))
    && (forall k :: 0 < k < |pieces| ==> gaps[k] != "")
    && Weave(gaps, pieces) == s
  }

  /** `pieces` are the maximal runs of non-separator characters of `s`, in order. */
  ghost predicate CutAtMaximalRuns(s: string, seps: set<char>, pieces: seq<string>)
  {
    exists gaps :: MaximalRuns(s, seps, gaps, pieces)
  }

  /** A woven text starts with its first gap, or with its first piece when that gap is empty. */
  lemma WeaveHead(gaps: seq<string>, pieces: seq<string>)
    requires |gaps| == |pieces| + 1
    ensures gaps[0] != "" ==> |Weave(gaps, pieces)| > 0 && Weave(gaps, pieces)[0] == gaps[0][0]
    ensures gaps[0] == "" && |pieces| > 0 && pieces[0] != "" ==>
      |Weave(gaps, pieces)| > 0 && Weave(gaps, pieces)[0] == pieces[0][0]
  {
  }

  lemma RemoveEmptyCons(x: string, xs: seq<string>)
    ensures RemoveEmpty([x] + xs) == (if x == "" then [] else [x]) + RemoveEmpty(xs)
  {
    RemoveEmptyAppend([x], xs);
    RemoveEmptySingle(x);
  }

  /** The first piece of a split is empty exactly when the text is empty or starts with a separator. */
  lemma SplitHead(t: string, seps: set<char>)
    ensures Split(t, seps)[0] == "" <==> |t| == 0 || t[0] in seps
  {
  }

  /** A leading separator adds no piece. */
  lemma SplitNonEmptyConsSeparator(s: string, seps: set<char>)
    requires |s| > 0 && s[0] in seps
    ensures RemoveEmpty(Split(s, seps)) == RemoveEmpty(Split(s[1..], seps))
  {
    var rest := Split(s[1..], seps);
    assert Split(s, seps) == [""] + rest;
    RemoveEmptyCons("", rest);
  }

  /** A non-separator followed by the end of the text or a separator is a piece of its own. */
  lemma SplitNonEmptyConsSingle(s: string, seps: set<char>)
    requires |s| > 0 && s[0] !in seps && (|s| == 1 || s[1] in seps)
    ensures RemoveEmpty(Split(s, seps)) == [[s[0]]] + RemoveEmpty(Split(s[1..], seps))
  {
    var rest := Split(s[1..], seps);
    SplitHead(s[1..], seps);
    assert Split(s, seps) == [[s[0]] + rest[0]] + rest[1..];
    RemoveEmptyCons([s[0]] + rest[0], rest[1..]);
    assert rest == [rest[0]] + rest[1..];
    RemoveEmptyCons(rest[0], rest[1..]);
    assert rest[0] == "" && [s[0]] + rest[0] == [s[0]];
  }

  /** A non-separator followed by another joins the first piece of the rest. */
  lemma SplitNonEmptyConsJoin(s: string, seps: set<char>)
    requires |s| > 1 && s[0] !in seps && s[1] !in seps
    ensures var t := RemoveEmpty(Split(s[1..], seps));
      |t| > 0 && RemoveEmpty(Split(s, seps)) == [[s[0]] + t[0]] + t[1..]
  {
    var rest := Split(s[1..], seps);
    SplitHead(s[1..], seps);
    assert Split(s, seps) == [[s[0]] + rest[0]] + rest[1..];
    RemoveEmptyCons([s[0]] + rest[0], rest[1..]);
    assert rest == [rest[0]] + rest[1..];
    RemoveEmptyCons(rest[0], rest[1..]);
  }

  /** A separator in front joins the first gap. */
  lemma RunsAfterSeparator(c: char, t: string, seps: set<char>, g: seq<string>, p: seq<string>)
    requires c in seps && MaximalRuns(t, seps, g, p)
    ensures MaximalRuns([c] + t, seps, [[c] + g[0]] + g[1..], p)
  {
    var gaps := [[c] + g[0]] + g[1..];
    assert gaps[1..] == g[1..];
    if |p| > 0 {
      assert Weave(gaps, p) == [c] + (g[0] + p[0] + Weave(g[1..], p[1..]));
    }
  }

  /** A non-separator in front of a separator or of nothing is a piece of its own. */
  lemma RunsNewPiece(c: char, t: string, seps: set<char>, g: seq<string>, p: seq<string>)
    requires c !in seps && (|t| == 0 || t[0] in seps) && MaximalRuns(t, seps, g, p)
    ensures MaximalRuns([c] + t, seps, [""] + g, [[c]] + p)
  {
    var gaps, q := [""] + g, [[c]] + p;
    WeaveHead(g, p);
    assert gaps[1..] == g && q[1..] == p;
    assert Weave(gaps, q) == [c] + Weave(g, p);
    assert forall k :: 0 < k < |q| ==> gaps[k] == g[k - 1];
  }

  /** A non-separator in front of another joins the first piece. */
  lemma RunsExtendPiece(c: char, t: string, seps: set<char>, g: seq<string>, p: seq<string>)
    requires c !in seps && |t| > 0 && t[0] !in seps && MaximalRuns(t, seps, g, p)
    ensures |p| > 0 && MaximalRuns([c] + t, seps, g, [[c] + p[0]] + p[1..])
  {
    WeaveHead(g, p);
    var q := [[c] + p[0]] + p[1..];
    assert q[1..] == p[1..];
    assert Weave(g, q) == [c] + (p[0] + Weave(g[1..], p[1..]));
  }

  /** The non-empty pieces of any text are its maximal runs, with the separator runs as gaps. */
  lemma {:induction false} SplitNonEmptyRuns(s: string, seps: set<char>) returns (gaps: seq<string>)
    ensures MaximalRuns(s, seps, gaps, RemoveEmpty(Split(s, seps)))
    decreases |s|
  {
    if |s| == 0 {
      gaps := [""];
      return;
    }
    var t := s[1..];
    var g := SplitNonEmptyRuns(t, seps);
    var p := RemoveEmpty(Split(t, seps));
    assert s == [s[0]] + t;
    if s[0] in seps {
      SplitNonEmptyConsSeparator(s, seps);
      RunsAfterSeparator(s[0], t, seps, g, p);
      gaps := [[s[0]] + g[0]] + g[1..];
    } else if |t| == 0 || t[0] in seps {
      SplitNonEmptyConsSingle(s, seps);
      RunsNewPiece(s[0], t, seps, g, p);
      gaps := [""] + g;
    } else {
      SplitNonEmptyConsJoin(s, seps);
      RunsExtendPiece(s[0], t, seps, g, p);
      gaps := g;
    }
  }

  lemma MaximalRunsExist(s: string, seps: set<char>)
    ensures CutAtMaximalRuns(s, seps, RemoveEmpty(Split(s, seps)))
  {
    var gaps := SplitNonEmptyRuns(s, seps);
  }

  /**
   * `s.Split(seps, StringSplitOptions.RemoveEmptyEntries)`: the maximal runs
   * of non-separator characters of `s`, in order, each one a piece.
   */
  function SplitNonEmpty(s: string, seps: set<char>): (pieces: seq<string>)
    ensures forall k :: 0 <= k < |pieces| ==> pieces[k] != "" && NoSeparator(pieces[k], seps)
    ensures Concat(pieces) == Without(s, seps)
    ensures CutAtMaximalRuns(s, seps, pieces)
  {
    ConcatSplit(s, seps);
    MaximalRunsExist(s, seps);
    var all := Split(s, seps);
    var r := RemoveEmpty(all);
    assert forall k :: 0 <= k < |r| ==> r[k] in all;
    r
  }

  /** Without its leading separator, a text keeps its runs, with a shorter first gap. */
  lemma RunsDropSeparator(s: string, seps: set<char>, gaps: seq<string>, p: seq<string>)
    requires MaximalRuns(s, seps, gaps, p) && gaps[0] != ""
    ensures |s| > 0 && s[0] in seps && MaximalRuns(s[1..], seps, [gaps[0][1..]] + gaps[1..], p)
  {
    var g := [gaps[0][1..]] + gaps[1..];
    assert g[1..] == gaps[1..];
    if |p| > 0 {
      assert s == [gaps[0][0]] + (gaps[0][1..] + p[0] + Weave(gaps[1..], p[1..]));
    } else {
      assert s == [gaps[0][0]] + gaps[0][1..];
    }
  }

  /** Without the first character of a longer first piece, a text keeps its runs, with a shorter first piece. */
  lemma RunsDropPieceChar(s: string, seps: set<char>, gaps: seq<string>, p: seq<string>)
    requires MaximalRuns(s, seps, gaps, p) && gaps[0] == "" && |p| > 0 && |p[0]| > 1
    ensures |s| > 1 && s[0] == p[0][0] && s[0] !in seps && s[1] !in seps
    ensures MaximalRuns(s[1..], seps, gaps, [p[0][1..]] + p[1..])
  {
    var q := [p[0][1..]] + p[1..];
    assert q[1..] == p[1..];
    assert s == [p[0][0]] + (p[0][1..] + Weave(gaps[1..], p[1..]));
  }

  /** Without a one-character first piece, a text keeps the remaining runs. */
  lemma RunsDropSinglePiece(s: string, seps: set<char>, gaps: seq<string>, p: seq<string>)
    requires MaximalRuns(s, seps, gaps, p) && gaps[0] == "" && |p| > 0 && |p[0]| == 1
    ensures |s| > 0 && s[0] == p[0][0] && s[0] !in seps && (|s| == 1 || s[1] in seps)
    ensures MaximalRuns(s[1..], seps, gaps[1..], p[1..])
  {
    assert s == [p[0][0]] + Weave(gaps[1..], p[1..]);
    WeaveHead(gaps[1..], p[1..]);
  }

  /**
   * The maximal runs determine the result: whichever separator runs stand
   * between them, non-empty separator-free pieces come back from
   * `SplitNonEmpty` exactly as they are.
   */
  lemma {:induction false} SplitNonEmptyDetermined(s: string, seps: set<char>, gaps: seq<string>, pieces: seq<string>)
    requires MaximalRuns(s, seps, gaps, pieces)
    ensures SplitNonEmpty(s, seps) == pieces
    decreases |s|
  {
    WeaveHead(gaps, pieces);
    if |s| == 0 {
      assert Split(s, seps) == [""];
      RemoveEmptySingle("");
    } else if gaps[0] != "" {
      RunsDropSeparator(s, seps, gaps, pieces);
      SplitNonEmptyConsSeparator(s, seps);
      SplitNonEmptyDetermined(s[1..], seps, [gaps[0][1..]] + gaps[1..], pieces);
    } else if |pieces[0]| > 1 {
      var p0 := pieces[0];
      RunsDropPieceChar(s, seps, gaps, pieces);
      SplitNonEmptyConsJoin(s, seps);
      SplitNonEmptyDetermined(s[1..], seps, gaps, [p0[1..]] + pieces[1..]);
      assert [s[0]] + p0[1..] == p0;
      assert ([p0[1..]] + pieces[1..])[1..] == pieces[1..];
    } else {
      RunsDropSinglePiece(s, seps, gaps, pieces);
      SplitNonEmptyConsSingle(s, seps);
      SplitNonEmptyDetermined(s[1..], seps, gaps[1..], pieces[1..]);
      assert pieces[0] == [s[0]];
      assert SplitNonEmpty(s[1..], seps) == RemoveEmpty(Split(s[1..], seps));
      assert [pieces[0]] + pieces[1..] == pieces;
    }
  }

  /** `s.TrimStart()`: the longest suffix of `s` that does not start with white space. */
  function TrimStart(s: string): (r: string)
    ensures |r| <= |s| && r == s[|s| - |r|..]
    ensures forall k :: 0 <= k < |s| - |r| ==> IsWhiteSpace(s[k])
    ensures r == "" || !IsWhiteSpace(r[0])
  {
    if |s| > 0 && IsWhiteSpace(s[0]) then TrimStart(s[1..]) else s
  }

  /** `s.TrimEnd()`: the longest prefix of `s` that does not end with white space. */
  function TrimEnd(s: string): (r: string)
    ensures |r| <= |s| && r == s[..|r|]
    ensures forall k :: |r| <= k < |s| ==> IsWhiteSpace(s[k])
    ensures r == "" || !IsWhiteSpace(r[|r| - 1])
  {
    if |s| > 0 && IsWhiteSpace(s[|s| - 1]) then TrimEnd(s[..|s| - 1]) else s
  }

  /** White space at positions `lo..hi` of a suffix `s[a..]` is white space at `a + lo..a + hi` of `s`. */
  lemma WhiteSpaceShift(s: string, a: nat, lo: nat, hi: nat)
    requires a <= |s| && lo <= hi <= |s| - a
    requires forall k :: lo <= k < hi ==> IsWhiteSpace(s[a..][k])
    ensures forall k :: a + lo <= k < a + hi ==> IsWhiteSpace(s[k])
  {
    forall k | a + lo <= k < a + hi
      ensures IsWhiteSpace(s[k])
    {
      assert s[k] == s[a..][k - a];
    }
  }

  /** A prefix of a suffix of `s` is a slice of `s`. */
  lemma PrefixOfSuffix(s: string, t: string, r: string)
    requires |t| <= |s| && t == s[|s| - |t|..]
    requires |r| <= |t| && r == t[..|r|]
    ensures |s| - |t| + |r| <= |s| && r == s[|s| - |t|..|s| - |t| + |r|]
  {
  }

  /**
   * `s.Trim()`: `s` without its leading and trailing white space; the
   * result is a slice of `s` that starts and ends with a non-white-space
   * character, or is empty.
   */
  function Trim(s: string): (r: string)
    ensures |s| - |TrimStart(s)| + |r| <= |s|
    ensures forall k {:trigger r[k]} :: 0 <= k < |r| ==> r[k] == s[|s| - |TrimStart(s)| + k]
    ensures forall k :: 0 <= k < |s| - |TrimStart(s)| ==> IsWhiteSpace(s[k])
    ensures forall k :: |s| - |TrimStart(s)| + |r| <= k < |s| ==> IsWhiteSpace(s[k])
    ensures r == "" || (!IsWhiteSpace(r[0]) && !IsWhiteSpace(r[|r| - 1]))
  {
    TrimIsSlice(s);
    TrimDropsTrailing(s);
    TrimEndsNonWhite(s);
    TrimEnd(TrimStart(s))
  }

  /** What `Trim` returns is the slice of `s` after the leading white space. */
  lemma TrimIsSlice(s: string)
    ensures var t := TrimStart(s); var r := TrimEnd(t);
      && |s| - |t| + |r| <= |s|
      && forall k {:trigger r[k]} :: 0 <= k < |r| ==> r[k] == s[|s| - |t| + k]
  {
    var t := TrimStart(s);
    PrefixOfSuffix(s, t, TrimEnd(t));
  }

  /** Everything after that slice is white space. */
  lemma TrimDropsTrailing(s: string)
    ensures var t := TrimStart(s); var r := TrimEnd(t);
      forall k :: |s| - |t| + |r| <= k < |s| ==> IsWhiteSpace(s[k])
  {
    var t := TrimStart(s);
    var r := TrimEnd(t);
    WhiteSpaceShift(s, |s| - |t|, |r|, |t|);
  }

  /** The slice neither starts nor ends with white space. */
  lemma TrimEndsNonWhite(s: string)
    ensures var r := TrimEnd(TrimStart(s));
      r == "" || (!IsWhiteSpace(r[0]) && !IsWhiteSpace(r[|r| - 1]))
  {
    var t := TrimStart(s);
    var r := TrimEnd(t);
    assert r == "" || r[0] == t[0];
  }

  /** A text with no separator in it is one piece. */
  lemma {:induction false} SplitSeparatorFree(s: string, seps: set<char>)
    requires NoSeparator(s, seps)
    ensures Split(s, seps) == [s]
  {
    if |s| > 0 {
      SplitSeparatorFree(s[1..], seps);
      assert s == [s[0]] + s[1..];
    }
  }

  /** A separator-free prefix followed by a separator is the first piece. */
  lemma {:induction false} SplitAfterPrefix(a: string, c: char, b: string, seps: set<char>)
    requires NoSeparator(a, seps) && c in seps
    ensures Split(a + [c] + b, seps) == [a] + Split(b, seps)
  {
    if |a| == 0 {
      assert a + [c] + b == [c] + b;
      assert ([c] + b)[1..] == b;
    } else {
      var s := a + [c] + b;
      assert s[1..] == a[1..] + [c] + b;
      SplitAfterPrefix(a[1..], c, b, seps);
      assert [s[0]] + a[1..] == a;
    }
  }

  lemma JoinCons(pieces: seq<string>, c: char)
    requires |pieces| > 1
    ensures Join(pieces, c) == pieces[0] + [c] + Join(pieces[1..], c)
  {
    assert seq(|pieces| - 1, _ => c)[1..] == seq(|pieces| - 2, _ => c);
  }

  /** Splitting the join of separator-free pieces on their joining character gives the pieces back. */
  lemma {:induction false} SplitJoined(pieces: seq<string>, c: char, seps: set<char>)
    requires |pieces| > 0 && c in seps
    requires forall k :: 0 <= k < |pieces| ==> NoSeparator(pieces[k], seps)
    ensures Split(Join(pieces, c), seps) == pieces
  {
    if |pieces| == 1 {
      SplitSeparatorFree(pieces[0], seps);
    } else {
      JoinCons(pieces, c);
      SplitAfterPrefix(pieces[0], c, Join(pieces[1..], c), seps);
      SplitJoined(pieces[1..], c, seps);
    }
  }

  lemma {:induction false} RemoveEmptyKeeps(pieces: seq<string>)
    requires forall k :: 0 <= k < |pieces| ==> pieces[k] != ""
    ensures RemoveEmpty(pieces) == pieces
  {
    if |pieces| > 0 {
      RemoveEmptyKeeps(pieces[1..]);
    }
  }

  /** The same, with empty pieces dropped: non-empty separator-free pieces survive a join and split unchanged. */
  lemma SplitNonEmptyJoined(pieces: seq<string>, c: char, seps: set<char>)
    requires |pieces| > 0 && c in seps
    requires forall k :: 0 <= k < |pieces| ==> pieces[k] != "" && NoSeparator(pieces[k], seps)
    ensures SplitNonEmpty(Join(pieces, c), seps) == pieces
  {
    SplitJoined(pieces, c, seps);
    RemoveEmptyKeeps(pieces);
  }

  /** The first and last characters of a join are those of its first and last pieces. */
  lemma {:induction false} JoinEnds(pieces: seq<string>, c: char)
    requires |pieces| > 0 && forall k :: 0 <= k < |pieces| ==> pieces[k] != ""
    ensures var s := Join(pieces, c);
      |s| > 0 && s[0] == pieces[0][0] && s[|s| - 1] == pieces[|pieces| - 1][|pieces[|pieces| - 1]| - 1]
  {
    if |pieces| > 1 {
      JoinCons(pieces, c);
      if |pieces| > 2 {
        JoinEnds(pieces[1..], c);
      } else {
        assert Join(pieces[1..], c) == pieces[1];
      }
    }
  }

  /** Text that neither starts nor ends with white space is its own trim. */
  lemma TrimUntouched(s: string)
    requires s != "" && !IsWhiteSpace(s[0]) && !IsWhiteSpace(s[|s| - 1])
    ensures Trim(s) == s
  {
  }
}
