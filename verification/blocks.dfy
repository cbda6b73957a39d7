/** The translation-block reader of `process_file`: a state machine over the
    lines of a dump that gathers the words given for two languages between a
    `{{trans-top|…}}` line and the next `{{trans-bottom}}` line, and pairs
    every word of the first language with every word of the second. */
module Blocks {
  import opened Text
  import opened Cleaner

  const TopMarker: string := "{{trans-top|"
  const BottomMarker: string := "{{trans-bottom}}"

  type Pair = (string, string)

  /** What the reader makes of one line. */
  datatype Line =
    | Top
    | Bottom
    | Entry(language: string, part: string)
    | Other

  predicate IsMarker(l: Line) {
    l.Top? || l.Bottom?
  }

  /** The characters `lstrip("* :")` drops. */
  predicate IsLead(c: char) {
    c == '*' || c == ' ' || c == ':'
  }

  /** `s.lstrip("* :")`. */
  function TrimLead(s: string): (r: string)
    ensures |r| <= |s| && r == s[|s| - |r|..]
    ensures forall i :: 0 <= i < |s| - |r| ==> IsLead(s[i])
    ensures |r| == 0 || !IsLead(r[0])
    decreases |s|
  {
    if |s| > 0 && IsLead(s[0]) then
      var r := TrimLead(s[1..]);
      assert forall i :: 1 <= i < |s| - |r| ==> s[i] == s[1..][i - 1];
      r
    else s
  }

  /** The line stripped, then compared with the two markers in turn; any other
      line is an entry when, after its leading `*`, spaces and colons, it
      holds a colon: the stripped text before that first colon names the
      language and the rest is the translation part. */
  function Classify(line: string): (l: Line)
    ensures l.Entry? ==> forall i :: 0 <= i < |l.language| ==> l.language[i] != ':'
  {
    var s := Strip(line);
    if StartsWith(s, TopMarker) then Top
    else if StartsWith(s, BottomMarker) then Bottom
    else
      var c := TrimLead(s);
      if ':' in c then
        var i := IndexOf(c, ':');
        StripHasNo(c[..i], ':');
        Entry(Strip(c[..i]), c[i + 1..])
      else Other
  }

  /** The words one line gives the first language (`first`) or the second.
      The source tests the first language before the second, so when both
      name the same language every word goes to the first. */
  function WordsFor(l: Line, lang1: string, lang2: string, first: bool): set<string>
  {
    match l
    case Entry(language, part) =>
      if first && language == lang1 then set w | w in ExtractWords(part)
      else if !first && language != lang1 && language == lang2 then set w | w in ExtractWords(part)
      else {}
    case _ => {}
  }

  function Cross(a: set<string>, b: set<string>): (r: set<Pair>)
    ensures forall x, y :: (x, y) in r <==> x in a && y in b
  {
    set x, y | x in a && y in b :: (x, y)
  }

  /** `in_block`, `lang1_words`, `lang2_words` and the pairs gathered so far.
      The pairs are kept as a set: their list order follows the iteration
      order of Python sets, and the converter turns them into a set later. */
  datatype State = State(inBlock: bool, first: set<string>, second: set<string>, pairs: set<Pair>)

  const Initial := State(false, {}, {}, {})

  /** One turn of the loop. A top marker opens a fresh block; a bottom marker
      closes the open block, pairing its words when both languages gave
      some, and is ignored (apart from clearing) otherwise; inside a block an
      entry adds its words; everything else is skipped. */
  function Step(st: State, l: Line, lang1: string, lang2: string): State
  {
    match l
    case Top => State(true, {}, {}, st.pairs)
    case Bottom =>
      var pairs :=
        if st.inBlock && st.first != {} && st.second != {} then st.pairs + Cross(st.first, st.second)
        else st.pairs;
      State(false, {}, {}, pairs)
    case _ =>
      if st.inBlock then
        State(true, st.first + WordsFor(l, lang1, lang2, true), st.second + WordsFor(l, lang1, lang2, false), st.pairs)
      else st
  }

  /** The loop over the classified lines, first to last. */
  function Read(ls: seq<Line>, lang1: string, lang2: string): State
  {
    if |ls| == 0 then Initial
    else Step(Read(ls[..|ls| - 1], lang1, lang2), ls[|ls| - 1], lang1, lang2)
  }

  function Classified(lines: seq<string>): (ls: seq<Line>)
    ensures |ls| == |lines|
    ensures forall k :: 0 <= k < |lines| ==> ls[k] == Classify(lines[k])
  {
    seq(|lines|, k requires 0 <= k < |lines| => Classify(lines[k]))
  }

  /** The word pairs `process_file` extracts from the lines of a dump. */
  function ExtractPairs(lines: seq<string>, lang1: string, lang2: string): set<Pair>
  {
    Read(Classified(lines), lang1, lang2).pairs
  }

  // ---------------------------------------------------------------------
  // The blocks, described without the machine

  /** The words gathered from a run of lines. */
  function Gathered(ls: seq<Line>, lang1: string, lang2: string, first: bool): set<string>
  {
    if |ls| == 0 then {}
    else Gathered(ls[..|ls| - 1], lang1, lang2, first) + WordsFor(ls[|ls| - 1], lang1, lang2, first)
  }

  /** Lines `i` and `j` are a top marker and the bottom marker that closes
      it: no marker lies between them. */
  predicate Closes(ls: seq<Line>, i: int, j: int) {
    && 0 <= i < j < |ls|
    && ls[i].Top? && ls[j].Bottom?
    && forall k :: i < k < j ==> !IsMarker(ls[k])
  }

  /** Line `i` is a top marker still open at the end of `ls`. */
  predicate OpenAt(ls: seq<Line>, i: int) {
    && 0 <= i < |ls|
    && ls[i].Top?
    && forall k :: i < k < |ls| ==> !IsMarker(ls[k])
  }

  /** `(a, b)` is a pair of some closed block: `a` is given for the first
      language and `b` for the second between a top marker and the bottom
      marker that closes it. */
  ghost predicate Produced(ls: seq<Line>, lang1: string, lang2: string, a: string, b: string) {
    exists i, j :: Closes(ls, i, j)
      && a in Gathered(ls[i + 1..j], lang1, lang2, true)
      && b in Gathered(ls[i + 1..j], lang1, lang2, false)
  }

  /** What the state holds after the lines `ls`. */
  ghost predicate Inv(ls: seq<Line>, lang1: string, lang2: string, st: State) {
    && (forall a, b :: (a, b) in st.pairs <==> Produced(ls, lang1, lang2, a, b))
    && (st.inBlock <==> exists i :: OpenAt(ls, i))
    && (forall i :: OpenAt(ls, i) ==>
          st.first == Gathered(ls[i + 1..], lang1, lang2, true) &&
          st.second == Gathered(ls[i + 1..], lang1, lang2, false))
  }

  lemma OpenUnique(ls: seq<Line>, i: int, j: int)
    requires OpenAt(ls, i) && OpenAt(ls, j)
    ensures i == j
  {
  }

  lemma OpenSnoc(ls: seq<Line>, l: Line, i: int)
    ensures OpenAt(ls + [l], i) <==> (OpenAt(ls, i) && !IsMarker(l)) || (i == |ls| && l.Top?)
  {
    var ls' := ls + [l];
    if OpenAt(ls, i) && !IsMarker(l) {
      forall k | i < k < |ls'| ensures !IsMarker(ls'[k]) {
        if k < |ls| { assert ls'[k] == ls[k]; }
      }
    }
    if OpenAt(ls', i) && i < |ls| {
      assert ls'[|ls|] == l;
      forall k | i < k < |ls| ensures !IsMarker(ls[k]) { assert ls'[k] == ls[k]; }
    }
  }

  lemma GatheredSnoc(s: seq<Line>, l: Line, lang1: string, lang2: string, first: bool)
    ensures Gathered(s + [l], lang1, lang2, first) == Gathered(s, lang1, lang2, first) + WordsFor(l, lang1, lang2, first)
  {
    assert (s + [l])[..|s|] == s;
  }

  /** Lines `i + 1` to `j` of a longer run, where `j` is within the shorter one. */
  lemma ClosesSnoc(ls: seq<Line>, l: Line, i: int, j: int)
    requires 0 <= i < j
    ensures j < |ls| ==> (Closes(ls + [l], i, j) <==> Closes(ls, i, j))
    ensures j == |ls| ==> (Closes(ls + [l], i, j) <==> OpenAt(ls, i) && l.Bottom?)
    ensures j <= |ls| ==> (ls + [l])[i + 1..j] == ls[i + 1..j]
  {
    var ls' := ls + [l];
    if j <= |ls| {
      assert forall k :: 0 <= k < |ls| ==> ls'[k] == ls[k];
    }
  }

  /** The blocks of `ls + [l]`: those of `ls`, and one more when `l` closes an open top. */
  ghost predicate ClosedBy(ls: seq<Line>, l: Line, lang1: string, lang2: string, a: string, b: string) {
    l.Bottom? && exists i :: (OpenAt(ls, i)
      && a in Gathered(ls[i + 1..], lang1, lang2, true)
      && b in Gathered(ls[i + 1..], lang1, lang2, false))
  }

  lemma ProducedSnocSound(ls: seq<Line>, l: Line, lang1: string, lang2: string, a: string, b: string)
    requires Produced(ls + [l], lang1, lang2, a, b)
    ensures Produced(ls, lang1, lang2, a, b) || ClosedBy(ls, l, lang1, lang2, a, b)
  {
    var ls' := ls + [l];
    var i, j :| Closes(ls', i, j)
      && a in Gathered(ls'[i + 1..j], lang1, lang2, true)
      && b in Gathered(ls'[i + 1..j], lang1, lang2, false);
    ClosesSnoc(ls, l, i, j);
    if j == |ls| {
      assert ls[i + 1..j] == ls[i + 1..];
    }
  }

  lemma ProducedSnocComplete(ls: seq<Line>, l: Line, lang1: string, lang2: string, a: string, b: string)
    requires Produced(ls, lang1, lang2, a, b) || ClosedBy(ls, l, lang1, lang2, a, b)
    ensures Produced(ls + [l], lang1, lang2, a, b)
  {
    if Produced(ls, lang1, lang2, a, b) {
      var i, j :| Closes(ls, i, j)
        && a in Gathered(ls[i + 1..j], lang1, lang2, true)
        && b in Gathered(ls[i + 1..j], lang1, lang2, false);
      ClosesSnoc(ls, l, i, j);
    } else {
      var i :| OpenAt(ls, i)
        && a in Gathered(ls[i + 1..], lang1, lang2, true)
        && b in Gathered(ls[i + 1..], lang1, lang2, false);
      ClosesSnoc(ls, l, i, |ls|);
      assert ls[i + 1..|ls|] == ls[i + 1..];
    }
  }

  /** A line adds a block exactly when it is a bottom marker closing an open top. */
  lemma ProducedSnoc(ls: seq<Line>, l: Line, lang1: string, lang2: string, a: string, b: string)
    ensures Produced(ls + [l], lang1, lang2, a, b) <==>
      Produced(ls, lang1, lang2, a, b) || ClosedBy(ls, l, lang1, lang2, a, b)
  {
    if Produced(ls + [l], lang1, lang2, a, b) {
      ProducedSnocSound(ls, l, lang1, lang2, a, b);
    }
    if Produced(ls, lang1, lang2, a, b) || ClosedBy(ls, l, lang1, lang2, a, b) {
      ProducedSnocComplete(ls, l, lang1, lang2, a, b);
    }
  }

  /** One turn of the loop keeps the description of the state. */
  lemma StepKeepsInv(ls: seq<Line>, l: Line, lang1: string, lang2: string, st: State)
    requires Inv(ls, lang1, lang2, st)
    ensures Inv(ls + [l], lang1, lang2, Step(st, l, lang1, lang2))
  {
    StepKeepsPairs(ls, l, lang1, lang2, st);
    StepKeepsOpen(ls, l, lang1, lang2, st);
    StepKeepsGathered(ls, l, lang1, lang2, st);
  }

  lemma StepKeepsPairs(ls: seq<Line>, l: Line, lang1: string, lang2: string, st: State)
    requires Inv(ls, lang1, lang2, st)
    ensures forall a, b :: (a, b) in Step(st, l, lang1, lang2).pairs <==> Produced(ls + [l], lang1, lang2, a, b)
  {
    var st' := Step(st, l, lang1, lang2);
    forall a, b ensures (a, b) in st'.pairs <==> Produced(ls + [l], lang1, lang2, a, b) {
      ProducedSnoc(ls, l, lang1, lang2, a, b);
      if l.Bottom? && st.inBlock {
        var i :| OpenAt(ls, i);
        forall i' | OpenAt(ls, i') ensures i' == i { OpenUnique(ls, i, i'); }
      }
    }
  }

  lemma StepKeepsOpen(ls: seq<Line>, l: Line, lang1: string, lang2: string, st: State)
    requires Inv(ls, lang1, lang2, st)
    ensures Step(st, l, lang1, lang2).inBlock <==> exists i :: OpenAt(ls + [l], i)
  {
    forall i ensures OpenAt(ls + [l], i) <==> (OpenAt(ls, i) && !IsMarker(l)) || (i == |ls| && l.Top?) {
      OpenSnoc(ls, l, i);
    }
    if l.Top? {
      assert OpenAt(ls + [l], |ls|);
    }
  }

  lemma StepKeepsGathered(ls: seq<Line>, l: Line, lang1: string, lang2: string, st: State)
    requires Inv(ls, lang1, lang2, st)
    ensures forall i :: OpenAt(ls + [l], i) ==>
      Step(st, l, lang1, lang2).first == Gathered((ls + [l])[i + 1..], lang1, lang2, true) &&
      Step(st, l, lang1, lang2).second == Gathered((ls + [l])[i + 1..], lang1, lang2, false)
  {
    var ls' := ls + [l];
    var st' := Step(st, l, lang1, lang2);
    forall i | OpenAt(ls', i)
      ensures st'.first == Gathered(ls'[i + 1..], lang1, lang2, true)
      ensures st'.second == Gathered(ls'[i + 1..], lang1, lang2, false)
    {
      OpenSnoc(ls, l, i);
      if l.Top? {
        assert ls'[|ls| + 1..] == [];
      } else {
        ExtendGathered(ls, l, lang1, lang2, i, st);
      }
    }
  }

  /** A line that is not a marker adds its words to an open block. */
  lemma ExtendGathered(ls: seq<Line>, l: Line, lang1: string, lang2: string, i: nat, st: State)
    requires i < |ls| && !IsMarker(l) && st.inBlock
    requires st.first == Gathered(ls[i + 1..], lang1, lang2, true)
    requires st.second == Gathered(ls[i + 1..], lang1, lang2, false)
    ensures Step(st, l, lang1, lang2).first == Gathered((ls + [l])[i + 1..], lang1, lang2, true)
    ensures Step(st, l, lang1, lang2).second == Gathered((ls + [l])[i + 1..], lang1, lang2, false)
  {
    SliceSnoc(ls, l, i + 1);
    GatheredSnoc(ls[i + 1..], l, lang1, lang2, true);
    GatheredSnoc(ls[i + 1..], l, lang1, lang2, false);
  }

  lemma SliceSnoc(ls: seq<Line>, l: Line, i: nat)
    requires i <= |ls|
    ensures (ls + [l])[i..] == ls[i..] + [l]
  {
  }

  lemma {:induction false} ReadInv(ls: seq<Line>, lang1: string, lang2: string)
    ensures Inv(ls, lang1, lang2, Read(ls, lang1, lang2))
    decreases |ls|
  {
    if |ls| > 0 {
      var init := ls[..|ls| - 1];
      ReadInv(init, lang1, lang2);
      StepKeepsInv(init, ls[|ls| - 1], lang1, lang2, Read(init, lang1, lang2));
      assert init + [ls[|ls| - 1]] == ls;
    }
  }

  /** The reader pairs exactly the words of the closed blocks: `(a, b)` is
      extracted if and only if some top marker, followed by the bottom
      marker that closes it, encloses an entry giving `a` for the first
      language and one giving `b` for the second. A block never closed, and
      lines outside blocks, contribute nothing. */
  lemma ExtractPairsMembers(lines: seq<string>, lang1: string, lang2: string, a: string, b: string)
    ensures (a, b) in ExtractPairs(lines, lang1, lang2) <==> Produced(Classified(lines), lang1, lang2, a, b)
  {
    ReadInv(Classified(lines), lang1, lang2);
  }

  lemma {:induction false} GatheredSameLanguage(ls: seq<Line>, lang: string)
    ensures Gathered(ls, lang, lang, false) == {}
    decreases |ls|
  {
    if |ls| > 0 {
      GatheredSameLanguage(ls[..|ls| - 1], lang);
    }
  }

  /** Asking for the same language twice yields no pairs: every word goes to
      the first language and the second stays empty. */
  lemma SameLanguageNoPairs(lines: seq<string>, lang: string, a: string, b: string)
    ensures (a, b) !in ExtractPairs(lines, lang, lang)
  {
    ExtractPairsMembers(lines, lang, lang, a, b);
    forall i, j | Closes(Classified(lines), i, j)
      ensures b !in Gathered(Classified(lines)[i + 1..j], lang, lang, false)
    {
      GatheredSameLanguage(Classified(lines)[i + 1..j], lang);
    }
  }
}
