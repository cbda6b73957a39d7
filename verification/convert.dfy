/** Steps 2 and 3 of `process_file` of the converter: clean both sides of
    every extracted pair, expand the cleaned original into its combinations,
    and write the distinct pairs sorted by `sort_key`, one
    `original<TAB>translation` line each. */
module Convert {
  import opened Text
  import opened Collation
  import opened Cleaner
  import opened Combinations
  import opened Blocks
  import Options
  import LineSort

  /** Step 2: one pair `(combination, cleaned translation)` for every
      combination of every cleaned original, as the set step 3 sorts. Every
      original is a non-empty normal phrase, and every translation is
      normal. */
  function CleanedPairs(pairs: set<Pair>): (r: set<Pair>)
    ensures forall p :: p in r ==> IsNormal(p.0) && |p.0| > 0 && IsNormal(p.1)
  {
    var r := set p, c | p in pairs && c in GenerateCombinations(CleanPhrase(p.0)) :: (c, CleanPhrase(p.1));
    assert forall p :: p in r ==> IsNormal(p.0) && |p.0| > 0 by {
      forall q | q in r ensures IsNormal(q.0) && |q.0| > 0 {
        var p, c :| p in pairs && c in GenerateCombinations(CleanPhrase(p.0)) && q == (c, CleanPhrase(p.1));
        GenerateNormal(CleanPhrase(p.0), c);
      }
    }
    r
  }

  /** `sort_key`. */
  function SortKey(p: Pair): Key
  {
    Key(p.0, |Words(p.1)|, |p.1|)
  }

  /** `sorted(set(cleaned_pairs), key=sort_key)`: every pair of the set once,
      in key order. Pairs with equal keys come in the iteration order of the
      set, which Python leaves open, so any order among them is allowed. */
  predicate SortedOutput(out: seq<Pair>, s: set<Pair>) {
    && (forall i, j :: 0 <= i < j < |out| ==> out[i] != out[j])
    && (forall p :: p in out ==> p in s)
    && (forall p :: p in s ==> p in out)
    && (forall i, j :: 0 <= i < j < |out| ==> KeyLe(SortKey(out[i]), SortKey(out[j])))
  }

  /** A pair of the set whose key comes first. */
  lemma {:induction false} LeastKey(s: set<Pair>) returns (m: Pair)
    requires s != {}
    ensures m in s
    ensures forall p :: p in s ==> KeyLe(SortKey(m), SortKey(p))
    decreases |s|
  {
    var x :| x in s;
    if s == {x} {
      m := x;
    } else {
      var m' := LeastKey(s - {x});
      KeyLeTotal(SortKey(x), SortKey(m'));
      if KeyLe(SortKey(x), SortKey(m')) {
        m := x;
        forall p | p in s ensures KeyLe(SortKey(m), SortKey(p)) {
          if p != x { KeyLeTransitive(SortKey(x), SortKey(m'), SortKey(p)); }
        }
      } else {
        m := m';
      }
    }
  }

  /** Every set of pairs has a sorted output. */
  lemma {:induction false} SortedOutputExists(s: set<Pair>) returns (out: seq<Pair>)
    ensures SortedOutput(out, s)
    decreases |s|
  {
    if s == {} {
      out := [];
    } else {
      var m := LeastKey(s);
      var rest := SortedOutputExists(s - {m});
      out := [m] + rest;
      forall i, j | 0 <= i < j < |out|
        ensures out[i] != out[j] && KeyLe(SortKey(out[i]), SortKey(out[j]))
      {
        assert out[j] == rest[j - 1] && out[j] in rest;
        if i > 0 { assert out[i] == rest[i - 1]; }
      }
      forall p | p in s ensures p in out {
        if p != m { assert p in rest; }
      }
    }
  }

  /** `f"{original}\t{translation}"`. */
  function LineOf(p: Pair): string {
    p.0 + [LineSort.Tab] + p.1
  }

  /** The lines written to the output file. */
  function Written(out: seq<Pair>): (lines: seq<string>)
    ensures |lines| == |out|
    ensures forall i :: 0 <= i < |out| ==> lines[i] == LineOf(out[i])
  {
    seq(|out|, i requires 0 <= i < |out| => LineOf(out[i]))
  }

  /** The converter's output, from the lines of the dump. */
  predicate Converted(lines: seq<string>, lang1: string, lang2: string, out: seq<Pair>) {
    SortedOutput(out, CleanedPairs(ExtractPairs(lines, lang1, lang2)))
  }

  // ---------------------------------------------------------------------
  // The output as input of `sort.py`

  /** A normal text holds no tab: its only whitespace is the plain space. */
  lemma NormalHasNoTab(s: string)
    requires IsNormal(s)
    ensures LineSort.Tab !in s
  {
    if LineSort.Tab in s {
      var i :| 0 <= i < |s| && s[i] == LineSort.Tab;
      assert IsSpace(s[i]);
    }
  }

  /** `sort_key` of a pair is `key_func` of `sort.py` on its written line. */
  lemma SortKeyOfLine(p: Pair)
    requires IsNormal(p.0) && IsNormal(p.1)
    ensures LineSort.Valid(LineOf(p))
    ensures LineSort.KeyOf(LineOf(p)) == SortKey(p)
  {
    NormalHasNoTab(p.0);
    NormalHasNoTab(p.1);
    LineSort.KeyOfFields(p.0, p.1);
  }

  /** Different pairs of normal texts are written as different lines. */
  lemma WrittenDiffer(p: Pair, q: Pair)
    requires IsNormal(p.0) && IsNormal(p.1) && IsNormal(q.0) && IsNormal(q.1)
    requires p != q
    ensures LineOf(p) != LineOf(q)
  {
    NormalHasNoTab(p.0);
    NormalHasNoTab(p.1);
    NormalHasNoTab(q.0);
    NormalHasNoTab(q.1);
    SplitOnTwo(p.0, p.1, LineSort.Tab);
    SplitOnTwo(q.0, q.1, LineSort.Tab);
  }

  /** A written line with a non-empty translation has no whitespace at
      either end. */
  lemma WrittenTrimmed(p: Pair)
    requires IsNormal(p.0) && |p.0| > 0 && IsNormal(p.1) && |p.1| > 0
    ensures LineSort.Trimmed(LineOf(p))
  {
    var line := LineOf(p);
    assert line[0] == p.0[0];
    assert line[|line| - 1] == p.1[|p.1| - 1];
  }

  /** The pairs step 3 sorts, when no translation cleaned to nothing. */
  predicate Writable(s: set<Pair>) {
    forall p :: p in s ==> IsNormal(p.0) && |p.0| > 0 && IsNormal(p.1) && |p.1| > 0
  }

  /** Each written line is trimmed, valid for `sort.py`, and keyed as its pair. */
  lemma WrittenLines(out: seq<Pair>, s: set<Pair>)
    requires SortedOutput(out, s) && Writable(s)
    ensures forall i :: 0 <= i < |out| ==> LineSort.Trimmed(Written(out)[i])
    ensures forall i :: 0 <= i < |out| ==>
      LineSort.Valid(Written(out)[i]) && LineSort.KeyOf(Written(out)[i]) == SortKey(out[i])
  {
    forall i | 0 <= i < |out|
      ensures LineSort.Trimmed(LineOf(out[i]))
      ensures LineSort.Valid(LineOf(out[i])) && LineSort.KeyOf(LineOf(out[i])) == SortKey(out[i])
    {
      assert out[i] in s;
      WrittenTrimmed(out[i]);
      SortKeyOfLine(out[i]);
    }
  }

  /** The written lines are valid lines of `sort.py`, already in its order,
      and none repeats its neighbour. */
  lemma WrittenSorted(out: seq<Pair>, s: set<Pair>)
    requires SortedOutput(out, s) && Writable(s)
    ensures LineSort.AllValid(Written(out))
    ensures LineSort.SortedBy(Written(out), false)
    ensures forall i :: 0 <= i < |out| - 1 ==> Written(out)[i] != Written(out)[i + 1]
  {
    var lines := Written(out);
    WrittenLines(out, s);
    assert LineSort.AllValid(lines) by {
      forall y | y in lines ensures LineSort.Valid(y) {
        var i :| 0 <= i < |lines| && lines[i] == y;
      }
    }
    forall i | 0 <= i < |out| - 1 ensures LineSort.Before(lines[i], lines[i + 1], false) {
      assert KeyLe(SortKey(out[i]), SortKey(out[i + 1]));
    }
    forall i | 0 <= i < |out| - 1 ensures LineOf(out[i]) != LineOf(out[i + 1]) {
      assert out[i] in s && out[i + 1] in s;
      WrittenDiffer(out[i], out[i + 1]);
    }
  }

  /** `sort.py` leaves the converter's output as it is when no translation
      cleaned to nothing: every line is kept, the key order is already
      there, and no line repeats its neighbour. */
  lemma SortAfterConvert(out: seq<Pair>, s: set<Pair>)
    requires SortedOutput(out, s) && Writable(s)
    ensures LineSort.SortFile(Written(out)).printed == Written(out)
    ensures LineSort.SortFile(Written(out)).rejected == []
  {
    WrittenLines(out, s);
    WrittenSorted(out, s);
    LineSort.SortFileOfSorted(Written(out));
  }

  /** A pair whose translation cleaned to nothing is written as
      `original<TAB>`, which `sort.py` strips to a line without a tab and
      rejects. */
  lemma EmptyTranslationRejected(original: string)
    requires IsNormal(original) && |original| > 0
    ensures LineSort.SortFile(Written([(original, "")])).printed == []
    ensures LineSort.SortFile(Written([(original, "")])).rejected == [original]
  {
    var line := original + [LineSort.Tab] + "";
    assert Written([(original, "")]) == [line];
    assert line == original + [LineSort.Tab];
    assert TrimStart(line) == line;
    assert line[..|line| - 1] == original;
    assert TrimEnd(original) == original;
    assert Strip(line) == original;
    NormalHasNoTab(original);
    assert !LineSort.Valid(original);
    assert LineSort.Stripped([line]) == [original];
    assert LineSort.Kept([original]) == [];
    assert LineSort.Rejected([original]) == [original] + LineSort.Rejected([]);
    assert LineSort.SortBy([], false) == [];
  }
}
