/**
 * The parts of `java.lang.String` the mailbox relies on: `toLowerCase`,
 * `trim` and `split("[,\\s]+")`.
 */
module Text {

  /** An upper-case ASCII letter. */
  predicate IsUpper(c: char) {
    'A' <= c <= 'Z'
  }

  /** No character of `s` is an upper-case letter. */
  predicate IsLowerCase(s: string) {
    forall i :: 0 <= i < |s| ==> !IsUpper(s[i])
  }

  function LowerChar(c: char): char {
    if IsUpper(c) then (c as int + 32) as char else c
  }

  /**
   * `String.toLowerCase()`, restricted to ASCII letters: every upper-case
   * letter becomes its lower-case partner and every other character stays.
   */
  function ToLower(s: string): (r: string)
    ensures |r| == |s|
    ensures IsLowerCase(r)
    ensures forall i :: 0 <= i < |s| && !IsUpper(s[i]) ==> r[i] == s[i]
    ensures forall i :: 0 <= i < |s| && IsUpper(s[i]) ==> r[i] as int == s[i] as int + 32
    ensures IsLowerCase(s) ==> r == s
  {
    seq(|s|, i requires 0 <= i < |s| => LowerChar(s[i]))
  }

  /** Lower-casing twice is lower-casing once. */
  lemma ToLowerIdempotent(s: string)
    ensures ToLower(ToLower(s)) == ToLower(s)
  {
  }

  /** A character that `String.trim()` removes: code point U+0020 or below. */
  predicate IsTrimmed(c: char) {
    c <= ' '
  }

  /** How many characters `trim` removes from the front of `s`. */
  function LeadingCut(s: string): (n: nat)
    ensures n <= |s|
    ensures forall i :: 0 <= i < n ==> IsTrimmed(s[i])
    ensures n == |s| || !IsTrimmed(s[n])
  {
    if s != [] && IsTrimmed(s[0]) then
      var n := 1 + LeadingCut(s[1..]);
      assert forall i :: 1 <= i < n ==> s[i] == s[1..][i - 1];
      n
    else 0
  }

  function TrimTrailing(s: string): (r: string)
    ensures |r| <= |s| && r == s[..|r|]
    ensures r == [] || !IsTrimmed(r[|r| - 1])
    ensures forall i :: |r| <= i < |s| ==> IsTrimmed(s[i])
  {
    if s != [] && IsTrimmed(s[|s| - 1]) then TrimTrailing(s[..|s| - 1]) else s
  }

  /**
   * `String.trim()`: the longest infix of `s` that neither starts nor ends
   * with a character at or below U+0020; everything cut off is such a
   * character.
   */
  function Trim(s: string): (r: string)
    ensures LeadingCut(s) + |r| <= |s|
    ensures r == s[LeadingCut(s)..LeadingCut(s) + |r|]
    ensures CutOffTrimmed(s, LeadingCut(s), LeadingCut(s) + |r|)
    ensures r == [] || (!IsTrimmed(r[0]) && !IsTrimmed(r[|r| - 1]))
    ensures (forall i :: 0 <= i < |s| ==> !IsTrimmed(s[i])) ==> r == s
  {
    var a := LeadingCut(s);
    var r := TrimTrailing(s[a..]);
    assert forall i :: a + |r| <= i < |s| ==> s[i] == s[a..][i - a];
    r
  }

  /** Every character of `s` before index `a` or from index `b` on is one `trim` removes. */
  predicate CutOffTrimmed(s: string, a: nat, b: nat) {
    forall i :: 0 <= i < |s| && (i < a || b <= i) ==> IsTrimmed(s[i])
  }

  /** A character of the Java pattern `[,\s]`: a comma, a space, or one of \t \n \u000B \f \r. */
  predicate IsSeparator(c: char) {
    c == ',' || c == ' ' || '\t' <= c <= '\r'
  }

  /** `s` has no separator character. */
  predicate NoSeparator(s: string) {
    forall i :: 0 <= i < |s| ==> !IsSeparator(s[i])
  }

  /** The characters of `s` that are not separators, in order. */
  function WithoutSeparators(s: string): string {
    if s == [] then []
    else (if IsSeparator(s[0]) then [] else [s[0]]) + WithoutSeparators(s[1..])
  }

  /** All pieces of `ps` joined with nothing in between. */
  function Concat(ps: seq<string>): string {
    if ps == [] then [] else ps[0] + Concat(ps[1..])
  }

  /**
   * The pieces of `s` between maximal runs of separators, left to right.
   * Only the first piece (when `s` starts with a separator) and the last one
   * (when `s` ends with one) can be empty.
   */
  function Pieces(s: string): (p: seq<string>)
    ensures |p| >= 1
    ensures s != [] ==> (p[0] == [] <==> IsSeparator(s[0]))
    ensures forall i :: 0 < i < |p| - 1 ==> p[i] != []
    ensures forall i :: 0 <= i < |p| ==> NoSeparator(p[i])
    ensures Concat(p) == WithoutSeparators(s)
  {
    if s == [] then [[]]
    else
      var rest := Pieces(s[1..]);
      if !IsSeparator(s[0]) then [[s[0]] + rest[0]] + rest[1..]
      else if |s| > 1 && IsSeparator(s[1]) then rest
      else [[]] + rest
  }

  function DropTrailingEmpty(ps: seq<string>): (r: seq<string>)
    ensures |r| <= |ps| && r == ps[..|r|]
    ensures r == [] || r[|r| - 1] != []
    ensures forall i :: |r| <= i < |ps| ==> ps[i] == []
  {
    if ps != [] && ps[|ps| - 1] == [] then DropTrailingEmpty(ps[..|ps| - 1]) else ps
  }

  /**
   * `s.split("[,\\s]+")`: cut at every maximal run of separators. When no
   * separator occurs the result is `[s]` (so `""` gives `[""]`); otherwise
   * trailing empty pieces are dropped, and a leading empty piece stays.
   * No piece contains a separator, no piece but the first is empty, and the
   * pieces hold every other character of `s`, in order.
   */
  function Split(s: string): (r: seq<string>)
    ensures NoSeparator(s) ==> r == [s]
    ensures forall i :: 0 <= i < |r| ==> NoSeparator(r[i])
    ensures forall i :: 0 < i < |r| ==> r[i] != []
    ensures Concat(r) == WithoutSeparators(s)
  {
    if NoSeparator(s) then
      NoSeparatorKept(s);
      [s]
    else
      var p := Pieces(s);
      var r := DropTrailingEmpty(p);
      ConcatDropEmpty(p, |r|);
      r
  }

  lemma {:induction false} NoSeparatorKept(s: string)
    requires NoSeparator(s)
    ensures WithoutSeparators(s) == s
    ensures Concat([s]) == s
  {
    if s != [] {
      NoSeparatorKept(s[1..]);
    }
    assert [s][1..] == [];
  }

  /** Dropping empty pieces from the end does not change the concatenation. */
  lemma {:induction false} ConcatDropEmpty(ps: seq<string>, n: nat)
    requires n <= |ps|
    requires forall i :: n <= i < |ps| ==> ps[i] == []
    ensures Concat(ps[..n]) == Concat(ps)
  {
    if n == 0 {
      ConcatAllEmpty(ps);
    } else {
      ConcatDropEmpty(ps[1..], n - 1);
      assert ps[..n][1..] == ps[1..][..n - 1];
    }
  }

  lemma {:induction false} ConcatAllEmpty(ps: seq<string>)
    requires forall i :: 0 <= i < |ps| ==> ps[i] == []
    ensures Concat(ps) == []
  {
    if ps != [] {
      ConcatAllEmpty(ps[1..]);
    }
  }

  // ---------------------------------------------------- split round trip

  /** Every character of `s` is a separator. */
  predicate AllSeparators(s: string) {
    forall i :: 0 <= i < |s| ==> IsSeparator(s[i])
  }

  /** `ps[0] + gaps[0] + ps[1] + ... + ps[n]`: the pieces with the gaps between them. */
  function Interleave(ps: seq<string>, gaps: seq<string>): (r: string)
    requires |ps| >= 1 && |gaps| == |ps| - 1
    ensures ps[0] <= r
  {
    if |ps| == 1 then ps[0] else ps[0] + (gaps[0] + Interleave(ps[1..], gaps[1..]))
  }

  /**
   * `split` cuts exactly at the separator runs: pieces without separators,
   * glued by non-empty runs of separators, with optional runs before and
   * after, come back as the pieces. A leading run adds one empty piece in
   * front; a trailing run adds nothing.
   */
  lemma SplitInterleaved(lead: string, ps: seq<string>, gaps: seq<string>, trail: string)
    requires AllSeparators(lead) && AllSeparators(trail)
    requires |ps| >= 1 && |gaps| == |ps| - 1
    requires forall i :: 0 <= i < |ps| ==> ps[i] != [] && NoSeparator(ps[i])
    requires forall i :: 0 <= i < |gaps| ==> gaps[i] != [] && AllSeparators(gaps[i])
    ensures Split(lead + Interleave(ps, gaps) + trail) == (if lead == [] then [] else [[]]) + ps
  {
    var s := lead + Interleave(ps, gaps) + trail;
    var q := (if lead == [] then [] else [[]]) + ps;
    PiecesWhole(lead, ps, gaps, trail);
    DropTrailingRun(q, if trail == [] then [] else [[]]);
    SplitViaPieces(s);
  }

  /** The pieces of the whole string: the optional leading empty piece, the words, the optional trailing one. */
  lemma PiecesWhole(lead: string, ps: seq<string>, gaps: seq<string>, trail: string)
    requires AllSeparators(lead) && AllSeparators(trail)
    requires |ps| >= 1 && |gaps| == |ps| - 1
    requires forall i :: 0 <= i < |ps| ==> ps[i] != [] && NoSeparator(ps[i])
    requires forall i :: 0 <= i < |gaps| ==> gaps[i] != [] && AllSeparators(gaps[i])
    ensures lead + Interleave(ps, gaps) + trail != []
    ensures var q := (if lead == [] then [] else [[]]) + ps;
      && q != [] && q[|q| - 1] != []
      && Pieces(lead + Interleave(ps, gaps) + trail) == q + (if trail == [] then [] else [[]])
  {
    var x := Interleave(ps, gaps) + trail;
    assert lead + Interleave(ps, gaps) + trail == lead + x;
    PiecesInterleaved(ps, gaps, trail);
    PiecesLead(lead, ps, gaps, trail);
    var q := (if lead == [] then [] else [[]]) + ps;
    assert q[|q| - 1] == ps[|ps| - 1];
  }

  /** A leading run of separators puts one empty piece in front. */
  lemma PiecesLead(lead: string, ps: seq<string>, gaps: seq<string>, trail: string)
    requires AllSeparators(lead)
    requires |ps| >= 1 && |gaps| == |ps| - 1 && ps[0] != [] && NoSeparator(ps[0])
    ensures lead + (Interleave(ps, gaps) + trail) != []
    ensures Pieces(lead + (Interleave(ps, gaps) + trail)) ==
      (if lead == [] then [] else [[]]) + Pieces(Interleave(ps, gaps) + trail)
  {
    var x := Interleave(ps, gaps) + trail;
    assert x[0] == ps[0][0];
    if lead != [] {
      PiecesRun(lead, x);
    } else {
      assert lead + x == x;
    }
  }

  /** A trailing empty piece, if any, is all that `DropTrailingEmpty` removes after a non-empty last piece. */
  lemma DropTrailingRun(q: seq<string>, tail: seq<string>)
    requires q != [] && q[|q| - 1] != []
    requires tail == [] || tail == [[]]
    ensures DropTrailingEmpty(q + tail) == q
  {
    if tail != [] {
      assert (q + tail)[..|q + tail| - 1] == q;
    } else {
      assert q + tail == q;
    }
  }

  /** A string made only of separators splits into no pieces at all. */
  lemma SplitOnlySeparators(s: string)
    requires s != [] && AllSeparators(s)
    ensures Split(s) == []
  {
    PiecesRun(s, []);
    assert s + [] == s;
    assert !NoSeparator(s) by {
      assert IsSeparator(s[0]);
    }
    assert DropTrailingEmpty([[]]) == [];
  }

  /** On a non-empty string, `split` drops the trailing empty pieces of `Pieces`. */
  lemma SplitViaPieces(s: string)
    requires s != []
    ensures Split(s) == DropTrailingEmpty(Pieces(s))
  {
    if NoSeparator(s) {
      PiecesWord(s, []);
      assert s + [] == s;
      assert Pieces(s) == [s];
    }
  }

  /** A separator-free prefix joins the first piece of what follows it. */
  lemma {:induction false} PiecesWord(w: string, t: string)
    requires NoSeparator(w)
    ensures Pieces(w + t) == [w + Pieces(t)[0]] + Pieces(t)[1..]
  {
    if w == [] {
      assert w + t == t;
      assert w + Pieces(t)[0] == Pieces(t)[0];
    } else {
      var s := w + t;
      assert s[0] == w[0] && !IsSeparator(s[0]);
      assert s[1..] == w[1..] + t;
      PiecesWord(w[1..], t);
      assert [w[0]] + (w[1..] + Pieces(t)[0]) == w + Pieces(t)[0];
    }
  }

  /** A run of separators followed by a non-separator (or the end) starts a new piece. */
  lemma {:induction false} PiecesRun(g: string, t: string)
    requires g != [] && AllSeparators(g)
    requires t == [] || !IsSeparator(t[0])
    ensures Pieces(g + t) == [[]] + Pieces(t)
  {
    var s := g + t;
    assert s[0] == g[0] && IsSeparator(s[0]);
    assert s[1..] == g[1..] + t;
    if |g| > 1 {
      assert s[1] == g[1];
      PiecesRun(g[1..], t);
    } else {
      assert s[1..] == t;
    }
  }

  /** The pieces of interleaved pieces and gaps, with a trailing run or not. */
  lemma {:induction false} PiecesInterleaved(ps: seq<string>, gaps: seq<string>, trail: string)
    requires AllSeparators(trail)
    requires |ps| >= 1 && |gaps| == |ps| - 1
    requires forall i :: 0 <= i < |ps| ==> ps[i] != [] && NoSeparator(ps[i])
    requires forall i :: 0 <= i < |gaps| ==> gaps[i] != [] && AllSeparators(gaps[i])
    ensures Pieces(Interleave(ps, gaps) + trail) == ps + (if trail == [] then [] else [[]])
  {
    if |ps| == 1 {
      PiecesLastWord(ps[0], trail);
      assert Interleave(ps, gaps) == ps[0];
    } else {
      var first := Interleave(ps[1..], gaps[1..]);
      PiecesInterleaved(ps[1..], gaps[1..], trail);
      PiecesStep(ps[0], gaps[0], first + trail, ps[1..] + (if trail == [] then [] else [[]]));
      assert Interleave(ps, gaps) + trail == ps[0] + (gaps[0] + (first + trail));
      assert ps == [ps[0]] + ps[1..];
    }
  }

  /** The last word, followed by a run of separators or by nothing. */
  lemma PiecesLastWord(w: string, trail: string)
    requires AllSeparators(trail) && NoSeparator(w)
    ensures Pieces(w + trail) == [w] + (if trail == [] then [] else [[]])
  {
    assert Pieces(trail) == [[]] + (if trail == [] then [] else [[]]) by {
      if trail != [] {
        PiecesRun(trail, []);
        assert trail + [] == trail;
      }
    }
    PiecesWord(w, trail);
    assert w + [] == w;
  }

  /** A word and a separator run in front of text that starts with a word. */
  lemma PiecesStep(w: string, g: string, rest: string, p: seq<string>)
    requires NoSeparator(w) && g != [] && AllSeparators(g)
    requires rest != [] && !IsSeparator(rest[0])
    requires Pieces(rest) == p
    ensures Pieces(w + (g + rest)) == [w] + p
  {
    PiecesRun(g, rest);
    PiecesWord(w, g + rest);
    assert w + [] == w;
  }
}
