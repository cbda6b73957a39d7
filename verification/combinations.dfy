/** `generate_combinations`: every phrase a cleaned dictionary phrase stands
    for, once its optional parentheticals and its slash alternatives are
    resolved, sorted and without duplicates. */
module Combinations {
  import opened Text
  import opened Collation
  import opened Tokens
  import opened Segments
  import opened Slashes
  import opened AttachedGroups

  /** `normalize_space(" ".join(combo))` for every combination, in order. */
  function JoinAll(combos: seq<seq<string>>): (ps: seq<string>)
    ensures |ps| == |combos|
    ensures forall k :: 0 <= k < |combos| ==> ps[k] == NormalizeSpace(Join(combos[k]))
  {
    if |combos| == 0 then [] else [NormalizeSpace(Join(combos[0]))] + JoinAll(combos[1..])
  }

  /** The words of an intermediate phrase: `re.split(r"\\s+", intermediate.strip())`. */
  function SplitWords(intermediate: string): seq<string>
  {
    SplitRuns(Strip(intermediate))
  }

  /** The final phrases one intermediate phrase stands for: one per choice of
      an alternative from every slash segment. */
  function Finals(intermediate: string): seq<string>
  {
    JoinAll(Product(SlashSegments(SplitWords(intermediate))))
  }

  /** The final phrases of all intermediate phrases, in order. */
  function AllFinals(intermediates: seq<string>): seq<string>
  {
    if |intermediates| == 0 then [] else Finals(intermediates[0]) + AllFinals(intermediates[1..])
  }

  /** The intermediate phrases of a phrase: its tokens grouped into segments
      of alternatives, one phrase per combination that is not blank. */
  function IntermediatePhrases(phrase: string): seq<string>
  {
    Intermediates(Product(Collect(Tokenize(phrase))))
  }

  /** `generate_combinations`. */
  function GenerateCombinations(phrase: string): (r: seq<string>)
    ensures Ascending(r)
    ensures AllSpace(phrase) ==> r == []
  {
    StripEmptyIffBlank(phrase);
    if |Strip(phrase)| == 0 then []
    else SortedSet(AllFinals(IntermediatePhrases(phrase)))
  }

  // ---------------------------------------------------------------------
  // What the result holds

  /** On an intermediate phrase, splitting at whitespace runs gives its words. */
  lemma SplitWordsOfIntermediate(p: string)
    requires IsNormal(p) && |p| > 0
    ensures SplitWords(p) == Words(p)
  {
    NormalIsStripped(p);
    SplitRunsOfStripped(p);
  }

  /** Every final phrase joins one alternative from each slash segment. */
  lemma FinalsMembers(p: string, x: string)
    ensures x in Finals(p) <==>
      exists c :: Picks(c, SlashSegments(SplitWords(p))) && x == NormalizeSpace(Join(c))
  {
    var combos := Product(SlashSegments(SplitWords(p)));
    if x in Finals(p) {
      var k :| 0 <= k < |combos| && JoinAll(combos)[k] == x;
      ProductMembers(SlashSegments(SplitWords(p)), combos[k]);
    }
    if exists c :: Picks(c, SlashSegments(SplitWords(p))) && x == NormalizeSpace(Join(c)) {
      var c :| Picks(c, SlashSegments(SplitWords(p))) && x == NormalizeSpace(Join(c));
      ProductMembers(SlashSegments(SplitWords(p)), c);
      var k :| 0 <= k < |combos| && combos[k] == c;
      assert JoinAll(combos)[k] == x;
    }
  }

  lemma {:induction false} AllFinalsMembers(ps: seq<string>, x: string)
    ensures x in AllFinals(ps) <==> exists k :: 0 <= k < |ps| && x in Finals(ps[k])
    decreases |ps|
  {
    if |ps| > 0 {
      AllFinalsMembers(ps[1..], x);
      if exists k :: 0 <= k < |ps| && x in Finals(ps[k]) {
        var k :| 0 <= k < |ps| && x in Finals(ps[k]);
        if k > 0 { assert ps[1..][k - 1] == ps[k]; }
      }
      if exists k :: 0 <= k < |ps| - 1 && x in Finals(ps[1..][k]) {
        var k :| 0 <= k < |ps| - 1 && x in Finals(ps[1..][k]);
        assert ps[1..][k] == ps[k + 1];
      }
    }
  }

  /** A phrase that is not blank stands for the final phrases of its
      intermediate phrases, and for nothing else. */
  lemma GenerateMembers(phrase: string, x: string)
    requires !AllSpace(phrase)
    ensures x in GenerateCombinations(phrase) <==>
      exists k :: 0 <= k < |IntermediatePhrases(phrase)| && x in Finals(IntermediatePhrases(phrase)[k])
  {
    StripEmptyIffBlank(phrase);
    AllFinalsMembers(IntermediatePhrases(phrase), x);
  }

  /** Every final phrase of an intermediate phrase is non-empty and normal. */
  lemma FinalsNormal(p: string, x: string)
    requires IsNormal(p) && |p| > 0
    requires x in Finals(p)
    ensures IsNormal(x) && |x| > 0
  {
    var segs := SlashSegments(SplitWords(p));
    SplitWordsOfIntermediate(p);
    FinalsMembers(p, x);
    var c :| Picks(c, segs) && x == NormalizeSpace(Join(c));
    WordsEmptyIffBlank(p);
    assert |c| > 0;
    assert c[0] in Words(p);
    assert IsWord(c[0]);
    JoinEnds(c);
    assert !AllSpace(Join(c)) by { assert !IsSpace(Join(c)[0]); }
  }

  /** The result is made of non-empty texts with single spaces between
      words and none at the ends. */
  lemma GenerateNormal(phrase: string, x: string)
    requires x in GenerateCombinations(phrase)
    ensures IsNormal(x) && |x| > 0
  {
    StripEmptyIffBlank(phrase);
    GenerateMembers(phrase, x);
    var ps := IntermediatePhrases(phrase);
    var k :| 0 <= k < |ps| && x in Finals(ps[k]);
    IntermediatesNormal(Product(Collect(Tokenize(phrase))), ps[k]);
    FinalsNormal(ps[k], x);
  }

  // ---------------------------------------------------------------------
  // Phrases without parentheses

  /** A phrase without parentheses has one intermediate phrase: itself with
      whitespace normalised. */
  lemma PlainIntermediate(phrase: string)
    requires ParenFree(phrase) && !AllSpace(phrase)
    ensures IntermediatePhrases(phrase) == [NormalizeSpace(phrase)]
  {
    var ws := Words(phrase);
    TokenizeWithoutParens(phrase);
    WordsParenFree(phrase);
    CollectPlain(ws);
    assert Collect(ws) == Singletons(ws);
    ProductSingletons(ws);
    WordsEmptyIffBlank(phrase);
    JoinEnds(ws);
    assert !AllSpace(Join(ws)) by { assert !IsSpace(Join(ws)[0]); }
    assert Intermediates([ws]) == Contribution(ws) + Intermediates([]);
  }

  /** The sorted set of one text is that text. */
  lemma SortedSetOfOne(p: string)
    ensures SortedSet([p]) == [p]
  {
    AscendingUnique(SortedSet([p]), [p]);
  }

  /** A phrase with neither parentheses nor slashes stands for itself, with
      whitespace normalised. */
  lemma PlainPhrase(phrase: string)
    requires ParenFree(phrase) && !AllSpace(phrase)
    requires forall k :: 0 <= k < |Words(phrase)| ==> Words(phrase)[k] != Slash
    ensures GenerateCombinations(phrase) == [NormalizeSpace(phrase)]
  {
    var ws := Words(phrase);
    var p := NormalizeSpace(phrase);
    PlainIntermediate(phrase);
    StripEmptyIffBlank(phrase);
    WordsEmptyIffBlank(phrase);
    SplitWordsOfIntermediate(p);
    SlashFree(ws);
    assert SlashSegments(ws) == Singletons(ws);
    ProductSingletons(ws);
    JoinWordsRoundTrip(ws);
    assert Finals(p) == [p];
    assert AllFinals([p]) == Finals(p) + AllFinals([]);
    SortedSetOfOne(p);
  }

  /** The slash segments of a phrase without parentheses, read back from its
      single intermediate phrase, are the groups it was written with. */
  lemma SlashGroupsOf(phrase: string, gs: seq<seq<string>>)
    requires ParenFree(phrase) && !AllSpace(phrase)
    requires Readable(gs) && Words(phrase) == Slashes.Render(gs)
    ensures IntermediatePhrases(phrase) == [NormalizeSpace(phrase)]
    ensures SlashSegments(SplitWords(NormalizeSpace(phrase))) == gs
  {
    var p := NormalizeSpace(phrase);
    PlainIntermediate(phrase);
    SplitWordsOfIntermediate(p);
    SlashRoundTrip(gs);
  }

  /** A phrase with a single intermediate phrase stands for that phrase's
      final phrases. */
  lemma GenerateOfSingle(phrase: string, p: string, x: string)
    requires !AllSpace(phrase) && IntermediatePhrases(phrase) == [p]
    ensures x in GenerateCombinations(phrase) <==> x in Finals(p)
  {
    var ps := IntermediatePhrases(phrase);
    GenerateMembers(phrase, x);
    if x in Finals(p) {
      assert ps[0] == p;
    }
    if exists k :: 0 <= k < |ps| && x in Finals(ps[k]) {
      var k :| 0 <= k < |ps| && x in Finals(ps[k]);
      assert k == 0;
    }
  }

  /** A phrase without parentheses whose words are slash-separated groups of
      alternatives stands for every choice of one alternative per group. */
  lemma SlashPhrase(phrase: string, gs: seq<seq<string>>, x: string)
    requires ParenFree(phrase) && !AllSpace(phrase)
    requires Readable(gs) && Words(phrase) == Slashes.Render(gs)
    ensures x in GenerateCombinations(phrase) <==>
      exists c :: Picks(c, gs) && x == NormalizeSpace(Join(c))
  {
    var p := NormalizeSpace(phrase);
    SlashGroupsOf(phrase, gs);
    GenerateOfSingle(phrase, p, x);
    FinalsMembers(p, x);
  }

  // ---------------------------------------------------------------------
  // Intermediate phrases and single words

  /** The intermediate phrases are the non-blank combinations of one
      alternative per segment, whitespace normalised. */
  lemma IntermediateMembers(phrase: string, p: string)
    ensures p in IntermediatePhrases(phrase) <==>
      exists c :: Picks(c, Collect(Tokenize(phrase))) && !AllSpace(Join(c)) && p == NormalizeSpace(Join(c))
  {
    var segs := Collect(Tokenize(phrase));
    var combos := Product(segs);
    if p in IntermediatePhrases(phrase) {
      var c := IntermediatesSound(combos, p);
      ProductMembers(segs, c);
    }
    if exists c :: Picks(c, segs) && !AllSpace(Join(c)) && p == NormalizeSpace(Join(c)) {
      var c :| Picks(c, segs) && !AllSpace(Join(c)) && p == NormalizeSpace(Join(c));
      ProductMembers(segs, c);
      IntermediatesComplete(combos, c);
    }
  }

  /** A word other than a lone slash has itself as its only final phrase. */
  lemma FinalsOfWord(w: string)
    requires IsWord(w) && w != Slash
    ensures Finals(w) == [w]
  {
    WordAlone(w);
    JoinIsNormal([w]);
    assert Join([w]) == w;
    SplitWordsOfIntermediate(w);
    SlashFree([w]);
    assert SlashSegments([w]) == Singletons([w]);
    ProductSingletons([w]);
  }

  /** `w(c)x` is one token whose one segment holds the word with and without
      `c`. */
  lemma AttachedSegments(w: string, c: string, x: string)
    requires ParenFree(w) && ParenFree(c) && ParenFree(x)
    requires NoSpace(w) && NoSpace(c) && NoSpace(x)
    requires |w + x| > 0 && |c| > 0
    ensures Collect(Tokenize(w + "(" + c + ")" + x)) == [[w + c + x, w + x]]
    ensures !AllSpace(w + "(" + c + ")" + x)
  {
    var t := w + "(" + c + ")" + x;
    assert t[|w|] == '(';
    NoSpaceConcat(w, "(");
    NoSpaceConcat(w + "(", c);
    NoSpaceConcat(w + "(" + c, ")");
    NoSpaceConcat(w + "(" + c + ")", x);
    AttachedToken(w, c, x);
    TokenizeWord(t);
    assert Collect([t]) == [Alternatives(t)] + Collect([t][1..]);
  }

  /** A combination from a single segment is one of its alternatives. */
  lemma PicksOne(cmb: seq<string>, alts: seq<string>)
    requires Picks(cmb, [alts])
    ensures cmb == [cmb[0]] && cmb[0] in alts && Join(cmb) == cmb[0]
  {
    assert [alts][0] == alts;
  }

  /** A phrase that forms a single segment of words has those words as its
      intermediate phrases. */
  lemma OneSegment(phrase: string, alts: seq<string>, p: string)
    requires Collect(Tokenize(phrase)) == [alts]
    requires forall j :: 0 <= j < |alts| ==> IsWord(alts[j])
    ensures p in IntermediatePhrases(phrase) <==> p in alts
  {
    IntermediateMembers(phrase, p);
    if p in IntermediatePhrases(phrase) {
      var cmb :| Picks(cmb, [alts]) && !AllSpace(Join(cmb)) && p == NormalizeSpace(Join(cmb));
      PicksOne(cmb, alts);
      WordAlone(cmb[0]);
    }
    if p in alts {
      var cmb := [p];
      assert Picks(cmb, [alts]);
      assert Join(cmb) == p;
      WordAlone(p);
      assert !AllSpace(p) by { assert !IsSpace(p[0]); }
    }
  }

  /** Every result comes from the final phrases of some intermediate phrase. */
  lemma GenerateSound(phrase: string, y: string) returns (p: string)
    requires !AllSpace(phrase) && y in GenerateCombinations(phrase)
    ensures p in IntermediatePhrases(phrase) && y in Finals(p)
  {
    GenerateMembers(phrase, y);
    var k :| 0 <= k < |IntermediatePhrases(phrase)| && y in Finals(IntermediatePhrases(phrase)[k]);
    p := IntermediatePhrases(phrase)[k];
  }

  /** Every final phrase of every intermediate phrase is a result. */
  lemma GenerateComplete(phrase: string, p: string, y: string)
    requires !AllSpace(phrase) && p in IntermediatePhrases(phrase) && y in Finals(p)
    ensures y in GenerateCombinations(phrase)
  {
    GenerateMembers(phrase, y);
  }

  /** A phrase that forms a single segment of words, none a lone slash, stands
      for exactly those words. */
  lemma OneSegmentOfWords(phrase: string, alts: seq<string>, y: string)
    requires !AllSpace(phrase) && Collect(Tokenize(phrase)) == [alts]
    requires forall j :: 0 <= j < |alts| ==> IsWord(alts[j])
    requires Slash !in alts
    ensures y in GenerateCombinations(phrase) <==> y in alts
  {
    if y in GenerateCombinations(phrase) {
      var p := GenerateSound(phrase, y);
      OneSegment(phrase, alts, p);
      var j :| 0 <= j < |alts| && alts[j] == p;
      FinalsOfWord(alts[j]);
    }
    if y in alts {
      OneSegment(phrase, alts, y);
      var j :| 0 <= j < |alts| && alts[j] == y;
      FinalsOfWord(alts[j]);
      GenerateComplete(phrase, y, y);
    }
  }

  /** The two readings of `w(c)x` are words, neither a lone slash. */
  lemma AlternativeWords(w: string, c: string, x: string)
    requires NoSpace(w) && NoSpace(c) && NoSpace(x)
    requires |w + x| > 0 && |c| > 0
    requires w + c + x != Slash && w + x != Slash
    ensures forall j :: 0 <= j < 2 ==> IsWord([w + c + x, w + x][j])
    ensures Slash !in [w + c + x, w + x]
  {
    NoSpaceConcat(w, c);
    NoSpaceConcat(w + c, x);
    NoSpaceConcat(w, x);
  }

  /** `word(suffix)` as the whole phrase stands for the word with and without
      the parenthesised part. */
  lemma AttachedWord(w: string, c: string, x: string, y: string)
    requires ParenFree(w) && ParenFree(c) && ParenFree(x)
    requires NoSpace(w) && NoSpace(c) && NoSpace(x)
    requires |w + x| > 0 && |c| > 0
    requires w + c + x != Slash && w + x != Slash
    ensures y in GenerateCombinations(w + "(" + c + ")" + x) <==> y == w + c + x || y == w + x
  {
    AttachedSegments(w, c, x);
    AlternativeWords(w, c, x);
    OneSegmentOfWords(w + "(" + c + ")" + x, [w + c + x, w + x], y);
  }

  /** The token `w(c)x` is attached, not a bare parenthetical, and its
      alternatives are the word with and without `c`. */
  lemma AttachedToken(w: string, c: string, x: string)
    requires ParenFree(w) && ParenFree(c) && ParenFree(x)
    requires NoSpace(w) && NoSpace(c) && NoSpace(x)
    requires |w + x| > 0 && |c| > 0
    ensures IsAttached(w + "(" + c + ")" + x)
    ensures Alternatives(w + "(" + c + ")" + x) == [w + c + x, w + x]
  {
    var t := w + "(" + c + ")" + x;
    assert t[|w|] == '(';
    assert t[|w| + 1 + |c|] == ')';
    if |w| > 0 {
      assert t[0] == w[0];
      assert !IsParen(w[0]);
    } else {
      assert t[|t| - 1] == x[|x| - 1];
      assert !IsParen(x[|x| - 1]);
    }
    forall s | s == w || s == c || s == x ensures Plain(s) {
      forall i | 0 <= i < |s| ensures s[i] != LineFeed { assert !IsSpace(s[i]); }
    }
    AlternativesOneGroup(w, c, x);
  }
}
