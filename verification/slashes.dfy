/** The slash step of `generate_combinations`: in the words of an
    intermediate phrase, `x / y / z` stands for one of `x`, `y`, `z`. */
module Slashes {
  import opened Text

  const Slash: string := "/"

  /** Closes the pending alternatives, if any, as one segment. */
  function Flush(cur: seq<string>, segs: seq<seq<string>>): seq<seq<string>> {
    if |cur| > 0 then segs + [cur] else segs
  }

  /** The `while i < len(words)` loop, from index `i` with the pending
      alternatives `cur` and the segments `segs` closed so far. */
  function Scan(words: seq<string>, i: nat, cur: seq<string>, segs: seq<seq<string>>): seq<seq<string>>
    requires i <= |words|
    decreases |words| - i
  {
    if i == |words| then Flush(cur, segs)
    else if i + 1 < |words| && words[i] == Slash then Scan(words, i + 1, cur, segs)
    else if i > 0 && words[i - 1] == Slash then Scan(words, i + 1, cur + [words[i]], segs)
    else
      var segs' := Flush(cur, segs);
      if i + 1 < |words| && words[i + 1] == Slash then Scan(words, i + 2, [words[i]], segs')
      else Scan(words, i + 1, [], segs' + [[words[i]]])
  }

  /** The segments of alternatives the words stand for. */
  function SlashSegments(words: seq<string>): (segs: seq<seq<string>>)
    ensures forall k :: 0 <= k < |segs| ==> |segs[k]| > 0
    ensures forall k, j :: 0 <= k < |segs| && 0 <= j < |segs[k]| ==> segs[k][j] in words
    ensures |words| > 0 ==> |segs| > 0
  {
    ScanShape(words, 0, [], []);
    Scan(words, 0, [], [])
  }

  predicate SegmentsFrom(segs: seq<seq<string>>, words: seq<string>) {
    (forall k :: 0 <= k < |segs| ==> |segs[k]| > 0) &&
    (forall k, j :: 0 <= k < |segs| && 0 <= j < |segs[k]| ==> segs[k][j] in words)
  }

  lemma {:induction false} ScanShape(words: seq<string>, i: nat, cur: seq<string>, segs: seq<seq<string>>)
    requires i <= |words|
    requires SegmentsFrom(segs, words)
    requires forall j :: 0 <= j < |cur| ==> cur[j] in words
    requires |words| > 0 && i == |words| ==> |cur| > 0 || |segs| > 0
    ensures SegmentsFrom(Scan(words, i, cur, segs), words)
    ensures |words| > 0 ==> |Scan(words, i, cur, segs)| > 0
    decreases |words| - i
  {
    if i < |words| {
      if i + 1 < |words| && words[i] == Slash {
        ScanShape(words, i + 1, cur, segs);
      } else if i > 0 && words[i - 1] == Slash {
        ScanShape(words, i + 1, cur + [words[i]], segs);
      } else {
        var segs' := Flush(cur, segs);
        if i + 1 < |words| && words[i + 1] == Slash {
          ScanShape(words, i + 2, [words[i]], segs');
        } else {
          ScanShape(words, i + 1, [], segs' + [[words[i]]]);
        }
      }
    }
  }

  // ---------------------------------------------------------------------
  // Parsing undoes rendering

  /** A group of alternatives written out: `x / y / z`. */
  function RenderGroup(g: seq<string>): (ws: seq<string>)
    ensures |g| > 0 ==> |ws| == 2 * |g| - 1
    decreases |g|
  {
    if |g| == 0 then []
    else if |g| == 1 then [g[0]]
    else [g[0], Slash] + RenderGroup(g[1..])
  }

  /** Groups written out one after the other. */
  function Render(gs: seq<seq<string>>): seq<string> {
    if |gs| == 0 then [] else RenderGroup(gs[0]) + Render(gs[1..])
  }

  /** Groups that can be written out and read back: non-empty, and no
      alternative is itself a slash. */
  predicate Readable(gs: seq<seq<string>>) {
    forall k :: 0 <= k < |gs| ==> ReadableGroup(gs[k])
  }

  predicate ReadableGroup(g: seq<string>) {
    |g| > 0 && forall j :: 0 <= j < |g| ==> g[j] != Slash
  }

  lemma RenderGroupAt(g: seq<string>, k: nat)
    requires |g| > 0 && k < |g|
    ensures RenderGroup(g)[2 * k] == g[k]
    ensures k + 1 < |g| ==> RenderGroup(g)[2 * k + 1] == Slash
    decreases k
  {
    if k > 0 {
      RenderGroupAt(g[1..], k - 1);
    }
  }

  /** Inside a rendered group, from alternative `k` on, the scan collects
      the remaining alternatives and stops right after the group. */
  lemma {:induction false} ScanInGroup(words: seq<string>, i: nat, g: seq<string>, k: nat, segs: seq<seq<string>>)
    requires |g| > 0 && 0 < k < |g|
    requires i + 2 * |g| - 1 <= |words|
    requires words[i..i + 2 * |g| - 1] == RenderGroup(g)
    requires forall j :: 0 <= j < |g| ==> g[j] != Slash
    ensures Scan(words, i + 2 * k, g[..k], segs) == Scan(words, i + 2 * |g| - 1, g, segs)
    decreases |g| - k
  {
    var p := i + 2 * k;
    WordOfGroup(words, i, g, k);
    WordOfGroup(words, i, g, k - 1);
    assert g[..k] + [g[k]] == g[..k + 1];
    if k + 1 == |g| {
      assert g[..k + 1] == g;
    } else {
      ScanInGroup(words, i, g, k + 1, segs);
    }
  }

  /** In a written-out group, alternative `k` sits at offset `2 * k`, and
      a slash follows every alternative but the last. */
  lemma WordOfGroup(words: seq<string>, i: nat, g: seq<string>, k: nat)
    requires |g| > 0 && k < |g|
    requires i + 2 * |g| - 1 <= |words|
    requires words[i..i + 2 * |g| - 1] == RenderGroup(g)
    ensures words[i + 2 * k] == g[k]
    ensures k + 1 < |g| ==> words[i + 2 * k + 1] == Slash
  {
    RenderGroupAt(g, k);
    assert words[i + 2 * k] == words[i..i + 2 * |g| - 1][2 * k];
    if k + 1 < |g| {
      assert words[i + 2 * k + 1] == words[i..i + 2 * |g| - 1][2 * k + 1];
    }
  }

  /** A position where a group starts or the words end. */
  predicate Boundary(words: seq<string>, i: nat)
    requires i <= |words|
  {
    (i == |words| || words[i] != Slash) && (i == 0 || words[i - 1] != Slash)
  }

  /** At a boundary, pending alternatives are closed before anything else. */
  lemma FlushAtBoundary(words: seq<string>, i: nat, cur: seq<string>, segs: seq<seq<string>>)
    requires i <= |words| && Boundary(words, i)
    ensures Scan(words, i, cur, segs) == Scan(words, i, [], Flush(cur, segs))
  {
  }

  /** A whole rendered group becomes one segment. */
  lemma ScanGroup(words: seq<string>, i: nat, g: seq<string>, segs: seq<seq<string>>)
    requires |g| > 0 && i + 2 * |g| - 1 <= |words|
    requires words[i..i + 2 * |g| - 1] == RenderGroup(g)
    requires forall j :: 0 <= j < |g| ==> g[j] != Slash
    requires Boundary(words, i) && Boundary(words, i + 2 * |g| - 1)
    ensures Scan(words, i, [], segs) == Scan(words, i + 2 * |g| - 1, [], segs + [g])
  {
    RenderGroupAt(g, 0);
    assert words[i] == g[0];
    var e := i + 2 * |g| - 1;
    if |g| == 1 {
      assert e == i + 1;
      assert !(i + 1 < |words| && words[i + 1] == Slash);
      assert g == [g[0]];
      assert Scan(words, i, [], segs) == Scan(words, i + 1, [], segs + [[g[0]]]);
    } else {
      RenderGroupAt(g, 1);
      RenderGroupAt(g, 0);
      assert words[i + 1] == Slash;
      assert [g[0]] == g[..1];
      ScanInGroup(words, i, g, 1, segs);
      FlushAtBoundary(words, e, g, segs);
    }
  }

  lemma RenderAllAt(gs: seq<seq<string>>)
    requires Readable(gs) && |gs| > 0
    ensures Render(gs) == RenderGroup(gs[0]) + Render(gs[1..])
    ensures Readable(gs[1..])
  {
    assert Readable(gs[1..]) by {
      forall k | 0 <= k < |gs| - 1 ensures ReadableGroup(gs[1..][k]) {
        assert gs[1..][k] == gs[k + 1];
      }
    }
  }

  lemma RenderedEnds(gs: seq<seq<string>>)
    requires Readable(gs) && |gs| > 0
    ensures Render(gs)[0] != Slash
  {
    RenderGroupAt(gs[0], 0);
  }

  /** The first and last words of a written-out group are its first and
      last alternatives. */
  lemma RenderGroupEnds(g: seq<string>)
    requires ReadableGroup(g)
    ensures RenderGroup(g)[0] != Slash && RenderGroup(g)[2 * |g| - 2] != Slash
  {
    RenderGroupAt(g, 0);
    RenderGroupAt(g, |g| - 1);
  }

  /** The first group is written out first; it neither starts nor ends
      with a slash, and neither do the groups after it start with one. */
  lemma RenderFront(gs: seq<seq<string>>)
    requires Readable(gs) && |gs| > 0
    ensures Readable(gs[1..]) && ReadableGroup(gs[0])
    ensures Render(gs) == RenderGroup(gs[0]) + Render(gs[1..])
    ensures |RenderGroup(gs[0])| > 0
    ensures RenderGroup(gs[0])[0] != Slash
    ensures RenderGroup(gs[0])[|RenderGroup(gs[0])| - 1] != Slash
    ensures |Render(gs[1..])| > 0 ==> Render(gs[1..])[0] != Slash
  {
    RenderAllAt(gs);
    RenderGroupEnds(gs[0]);
    if |gs| > 1 {
      RenderedEnds(gs[1..]);
    }
  }

  /** A group that neither starts nor ends with a slash, written out at a
      boundary and followed by words that do not start with one, ends at a
      boundary. */
  lemma GroupAt(words: seq<string>, i: nat, front: seq<string>, back: seq<string>)
    requires i <= |words| && words[i..] == front + back
    requires |front| > 0 && front[0] != Slash && front[|front| - 1] != Slash
    requires |back| > 0 ==> back[0] != Slash
    requires i == 0 || words[i - 1] != Slash
    ensures i + |front| <= |words|
    ensures words[i..i + |front|] == front && words[i + |front|..] == back
    ensures Boundary(words, i) && Boundary(words, i + |front|)
  {
    assert words[i] == words[i..][0];
    assert words[i + |front| - 1] == words[i..][|front| - 1];
    if |back| > 0 {
      assert words[i + |front|] == words[i..][|front|];
    }
  }

  /** The scan reads back the groups written out from a boundary `i`. */
  lemma {:induction false} ScanRendered(words: seq<string>, i: nat, gs: seq<seq<string>>, segs: seq<seq<string>>)
    requires Readable(gs)
    requires i <= |words| && words[i..] == Render(gs)
    requires i == 0 || words[i - 1] != Slash
    ensures Scan(words, i, [], segs) == segs + gs
    decreases |gs|
  {
    if |gs| == 0 {
      assert segs + gs == segs;
    } else {
      var g := gs[0];
      var group := RenderGroup(g);
      var back := Render(gs[1..]);
      RenderFront(gs);
      GroupAt(words, i, group, back);
      ScanGroup(words, i, g, segs);
      ScanRendered(words, i + |group|, gs[1..], segs + [g]);
      assert (segs + [g]) + gs[1..] == segs + gs;
    }
  }

  /** Reading back written-out groups gives the groups. */
  lemma SlashRoundTrip(gs: seq<seq<string>>)
    requires Readable(gs)
    ensures SlashSegments(Render(gs)) == gs
  {
    ScanRendered(Render(gs), 0, gs, []);
  }

  /** Without slashes every word is a segment of its own. */
  lemma SlashFree(words: seq<string>)
    requires forall j :: 0 <= j < |words| ==> words[j] != Slash
    ensures SlashSegments(words) == seq(|words|, j requires 0 <= j < |words| => [words[j]])
  {
    var gs := seq(|words|, j requires 0 <= j < |words| => [words[j]]);
    assert Render(gs) == words by { RenderSingles(words); }
    SlashRoundTrip(gs);
  }

  lemma {:induction false} RenderSingles(words: seq<string>)
    ensures Render(seq(|words|, j requires 0 <= j < |words| => [words[j]])) == words
    decreases |words|
  {
    var gs := seq(|words|, j requires 0 <= j < |words| => [words[j]]);
    if |words| > 0 {
      RenderSingles(words[1..]);
      assert gs[1..] == seq(|words| - 1, j requires 0 <= j < |words| - 1 => [words[1..][j]]);
    }
  }

  /** A lone slash is kept as a word. */
  lemma LoneSlash()
    ensures SlashSegments([Slash]) == [[Slash]]
  {
    var ws := [Slash];
    assert Scan(ws, 0, [], []) == Scan(ws, 1, [], [[Slash]]);
  }

  /** A slash at the end of the words is dropped. */
  lemma TrailingSlash(w: string)
    requires w != Slash
    ensures SlashSegments([w, Slash]) == [[w]]
  {
    var ws := [w, Slash];
    assert Scan(ws, 0, [], []) == Scan(ws, 2, [w], []);
  }

  /** A slash at the start of the words is dropped. */
  lemma LeadingSlash(w: string)
    requires w != Slash
    ensures SlashSegments([Slash, w]) == [[w]]
  {
    var ws := [Slash, w];
    assert Scan(ws, 0, [], []) == Scan(ws, 1, [], []);
    assert ws[1 - 1] == Slash && ws[1] == w;
    assert [] + [w] == [w];
    assert Scan(ws, 1, [], []) == Scan(ws, 2, [w], []);
  }
}
