/** The parenthesis step of `generate_combinations`: tokens become segments
    of alternatives, and every choice of one alternative per segment gives an
    intermediate phrase. */
module Segments {
  import opened Text
  import opened Tokens
  import opened AttachedGroups

  // ---------------------------------------------------------------------
  // process_standalone_group

  /** `t[1:-1]`: the text between the parentheses. */
  function Inner(t: string): string {
    if |t| >= 2 then t[1..|t| - 1] else ""
  }

  function Contents(group: seq<string>): (cs: seq<string>)
    ensures |cs| == |group|
    ensures forall i :: 0 <= i < |group| ==> cs[i] == Inner(group[i])
  {
    seq(|group|, i requires 0 <= i < |group| => Inner(group[i]))
  }

  /** `" ".join(contents[i:]).strip()` for every `i` from 0 to the number of contents. */
  function Suffixes(contents: seq<string>): (cs: seq<string>)
    ensures |cs| == |contents| + 1
    ensures forall i :: 0 <= i <= |contents| ==> Words(cs[i]) == WordsOfAll(contents[i..])
    ensures cs[|contents|] == ""
  {
    var cs := seq(|contents| + 1, i requires 0 <= i <= |contents| => Strip(Join(contents[i..])));
    forall i | 0 <= i <= |contents| ensures Words(cs[i]) == WordsOfAll(contents[i..]) {
      WordsStrip(Join(contents[i..]));
      WordsOfJoin(contents[i..]);
    }
    assert contents[|contents|..] == [];
    assert TrimStart("") == "";
    cs
  }

  /** The comprehension `[c for c in cs if c or not cs == [""]]`. */
  function KeepNonEmptyUnlessOnly(cs: seq<string>, all: seq<string>): (r: seq<string>)
    ensures all != [""] ==> r == cs
  {
    if |cs| == 0 then []
    else (if |cs[0]| > 0 || all != [""] then [cs[0]] else []) + KeepNonEmptyUnlessOnly(cs[1..], all)
  }

  /** `process_standalone_group`: a run of standalone parentheticals stands
      for the words of every trailing part of the run, from all of them down
      to none. */
  function StandaloneGroup(group: seq<string>): (r: seq<string>)
    ensures |group| == 0 ==> r == [""]
    ensures |group| > 0 ==> |r| == |group| + 1 && r[|group|] == ""
    ensures |group| > 0 ==> forall i :: 0 <= i <= |group| ==>
      Words(r[i]) == WordsOfAll(Contents(group)[i..])
  {
    if |group| == 0 then [""]
    else
      var cs := Suffixes(Contents(group));
      assert |cs| >= 2;
      KeepNonEmptyUnlessOnly(cs, cs)
  }

  /** The filter in `process_standalone_group` says empty options are dropped
      unless they are the only one; as written it never drops anything,
      because a non-empty group has at least two options. */
  lemma StandaloneKeepsEmpty(group: seq<string>)
    requires |group| > 0
    ensures "" in StandaloneGroup(group)
  {
    var r := StandaloneGroup(group);
    assert r[|group|] == "";
  }

  lemma SuffixAt(contents: seq<string>, i: nat)
    requires i <= |contents|
    ensures Suffixes(contents)[i] == Strip(Join(contents[i..]))
  {
  }

  /** When every parenthetical holds normal, non-empty text, option `i` of
      the run is exactly the words of parentheticals `i` onwards, joined by
      single spaces. */
  lemma StandaloneOptionWords(group: seq<string>, i: nat)
    requires |group| > 0 && i <= |group|
    requires forall k :: 0 <= k < |group| ==> IsNormal(Inner(group[k])) && |Inner(group[k])| > 0
    ensures StandaloneGroup(group)[i] == Join(WordsOfAll(Contents(group)[i..]))
  {
    var cs := Contents(group);
    var tail := cs[i..];
    SuffixAt(cs, i);
    forall k | 0 <= k < |tail| ensures IsNormal(tail[k]) && |tail[k]| > 0 {
      assert tail[k] == cs[i + k];
    }
    StripJoinOfNormal(tail);
  }

  lemma StripJoinOfNormal(parts: seq<string>)
    requires forall k :: 0 <= k < |parts| ==> IsNormal(parts[k]) && |parts[k]| > 0
    ensures Strip(Join(parts)) == Join(WordsOfAll(parts))
  {
    var j := Join(parts);
    JoinOfNormal(parts);
    NormalIsStripped(j);
    NormalIsFixpoint(j);
    WordsOfJoin(parts);
  }

  /** Joining non-empty normal texts with single spaces gives a normal text. */
  lemma {:induction false} JoinOfNormal(parts: seq<string>)
    requires forall k :: 0 <= k < |parts| ==> IsNormal(parts[k]) && |parts[k]| > 0
    ensures IsNormal(Join(parts))
    decreases |parts|
  {
    if |parts| > 1 {
      JoinOfNormal(parts[1..]);
      var a := parts[0];
      var b := Join(parts[1..]);
      assert |b| > 0 by { JoinNonEmpty(parts[1..]); }
      NormalConcat(a, b);
    } else if |parts| == 0 {
      assert Join(parts) == "";
    }
  }

  lemma JoinNonEmpty(parts: seq<string>)
    requires |parts| > 0 && |parts[0]| > 0
    ensures |Join(parts)| > 0
  {
  }

  lemma NormalConcat(a: string, b: string)
    requires IsNormal(a) && IsNormal(b) && |a| > 0 && |b| > 0
    ensures IsNormal(a + " " + b)
  {
    var s := a + " " + b;
    assert s[|a|] == ' ';
    forall i | 0 <= i < |s| && IsSpace(s[i]) ensures s[i] == ' ' {
      if i < |a| { assert s[i] == a[i]; } else if i > |a| { assert s[i] == b[i - |a| - 1]; }
    }
    forall i, j | 0 <= i < |s| && 0 <= j < |s| && j == i + 1 ensures !IsSpace(s[i]) || !IsSpace(s[j]) {
      if j < |a| {
        assert s[i] == a[i] && s[j] == a[j];
      } else if j == |a| {
        assert s[i] == a[|a| - 1];
      } else if i == |a| {
        assert s[j] == b[0];
      } else {
        assert s[i] == b[i - |a| - 1] && s[j] == b[j - |a| - 1];
      }
    }
    assert s[0] == a[0];
    assert s[|s| - 1] == b[|b| - 1];
  }

  // ---------------------------------------------------------------------
  // Collecting segments

  /** The number of standalone parentheticals at the start of `tokens`. */
  function RunLength(tokens: seq<string>): (n: nat)
    ensures n <= |tokens|
    ensures forall k :: 0 <= k < n ==> IsParenthetical(tokens[k])
    ensures n == |tokens| || !IsParenthetical(tokens[n])
  {
    if |tokens| == 0 || !IsParenthetical(tokens[0]) then 0
    else 1 + RunLength(tokens[1..])
  }

  /** The segment loop: an attached parenthetical becomes its alternatives, a
      run of standalone parentheticals one group of options, any other token
      itself. */
  function Collect(tokens: seq<string>): (segs: seq<seq<string>>)
    ensures |segs| <= |tokens|
    ensures forall k :: 0 <= k < |segs| ==> |segs[k]| > 0
    decreases |tokens|
  {
    if |tokens| == 0 then []
    else if IsAttached(tokens[0]) then [Alternatives(tokens[0])] + Collect(tokens[1..])
    else if IsParenthetical(tokens[0]) then
      var n := RunLength(tokens);
      [StandaloneGroup(tokens[..n])] + Collect(tokens[n..])
    else [[tokens[0]]] + Collect(tokens[1..])
  }

  /** Tokens without parentheses are segments of one alternative each. */
  lemma {:induction false} CollectPlain(tokens: seq<string>)
    requires forall k :: 0 <= k < |tokens| ==> ParenFree(tokens[k])
    ensures |Collect(tokens)| == |tokens|
    ensures forall k :: 0 <= k < |tokens| ==> Collect(tokens)[k] == [tokens[k]]
    decreases |tokens|
  {
    if |tokens| > 0 {
      var t := tokens[0];
      assert ParenFree(t);
      forall i | 0 <= i < |t| ensures t[i] != '(' { assert !IsParen(t[i]); }
      CollectPlain(tokens[1..]);
    }
  }

  // ---------------------------------------------------------------------
  // itertools.product

  function Prepend(x: string, rs: seq<seq<string>>): (r: seq<seq<string>>)
    ensures |r| == |rs|
    ensures forall i :: 0 <= i < |rs| ==> r[i] == [x] + rs[i]
  {
    seq(|rs|, i requires 0 <= i < |rs| => [x] + rs[i])
  }

  function ProductWith(xs: seq<string>, rest: seq<seq<string>>): (r: seq<seq<string>>)
    ensures |r| == |xs| * |rest|
  {
    if |xs| == 0 then [] else Prepend(xs[0], rest) + ProductWith(xs[1..], rest)
  }

  /** `itertools.product(*segs)`: one alternative from each segment, the
      first segment varying slowest. */
  function Product(segs: seq<seq<string>>): seq<seq<string>>
  {
    if |segs| == 0 then [[]] else ProductWith(segs[0], Product(segs[1..]))
  }

  /** The number of combinations is the product of the segment sizes. */
  function Size(segs: seq<seq<string>>): nat {
    if |segs| == 0 then 1 else |segs[0]| * Size(segs[1..])
  }

  lemma {:induction false} ProductSize(segs: seq<seq<string>>)
    ensures |Product(segs)| == Size(segs)
    decreases |segs|
  {
    if |segs| > 0 {
      ProductSize(segs[1..]);
    }
  }

  /** A combination picks, for every segment, one of its alternatives. */
  predicate Picks(combo: seq<string>, segs: seq<seq<string>>) {
    |combo| == |segs| && forall i :: 0 <= i < |segs| ==> combo[i] in segs[i]
  }

  lemma {:induction false} ProductWithMembers(xs: seq<string>, rest: seq<seq<string>>, c: seq<string>)
    ensures c in ProductWith(xs, rest) <==> |c| > 0 && c[0] in xs && c[1..] in rest
    decreases |xs|
  {
    if |xs| > 0 {
      ProductWithMembers(xs[1..], rest, c);
      var p := Prepend(xs[0], rest);
      assert c in p <==> |c| > 0 && c[0] == xs[0] && c[1..] in rest by {
        if c in p {
          var i :| 0 <= i < |rest| && p[i] == c;
          assert c[1..] == rest[i];
        }
        if |c| > 0 && c[0] == xs[0] && c[1..] in rest {
          var i :| 0 <= i < |rest| && rest[i] == c[1..];
          assert p[i] == c;
        }
      }
    }
  }

  /** The product holds exactly the combinations that pick from every segment. */
  lemma {:induction false} ProductMembers(segs: seq<seq<string>>, c: seq<string>)
    ensures c in Product(segs) <==> Picks(c, segs)
    decreases |segs|
  {
    if |segs| == 0 {
      assert c in Product(segs) <==> c == [];
    } else {
      ProductWithMembers(segs[0], Product(segs[1..]), c);
      if |c| > 0 {
        ProductMembers(segs[1..], c[1..]);
        if Picks(c, segs) {
          assert Picks(c[1..], segs[1..]) by {
            forall i | 0 <= i < |segs| - 1 ensures c[1..][i] in segs[1..][i] { assert c[i + 1] in segs[i + 1]; }
          }
        }
        if c[0] in segs[0] && Picks(c[1..], segs[1..]) {
          forall i | 0 <= i < |segs| ensures c[i] in segs[i] {
            if i > 0 { assert c[1..][i - 1] in segs[1..][i - 1]; }
          }
        }
      }
    }
  }

  // ---------------------------------------------------------------------
  // Intermediate phrases

  /** What one combination contributes to the intermediate phrases:
      `" ".join(c).strip()`, kept if it is still non-empty after another
      `strip()`, then normalised. Stripping first changes nothing: the
      contribution is the normalised join unless the join is blank. */
  function Contribution(combo: seq<string>): (r: seq<string>)
    ensures r == if AllSpace(Join(combo)) then [] else [NormalizeSpace(Join(combo))]
  {
    var p := Strip(Join(combo));
    StripEmptyIffBlank(Join(combo));
    WordsStrip(Join(combo));
    assert NormalizeSpace(p) == NormalizeSpace(Join(combo));
    assert |Strip(p)| > 0 <==> |p| > 0 by {
      StripEmptyIffBlank(p);
      if |p| > 0 { assert !IsSpace(p[0]); }
    }
    if |Strip(p)| > 0 then [NormalizeSpace(p)] else []
  }

  /** `[normalize_space(p) for p in (" ".join(c).strip() for c in combos) if p.strip()]`. */
  function Intermediates(combos: seq<seq<string>>): (ps: seq<string>)
  {
    if |combos| == 0 then []
    else Contribution(combos[0]) + Intermediates(combos[1..])
  }

  /** Every intermediate phrase is the normalised join of a combination that is not blank. */
  lemma {:induction false} IntermediatesSound(combos: seq<seq<string>>, x: string) returns (c: seq<string>)
    requires x in Intermediates(combos)
    ensures c in combos && !AllSpace(Join(c)) && x == NormalizeSpace(Join(c))
    decreases |combos|
  {
    var first := Contribution(combos[0]);
    assert Intermediates(combos) == first + Intermediates(combos[1..]);
    if x in first {
      c := combos[0];
    } else {
      c := IntermediatesSound(combos[1..], x);
    }
  }

  /** Every combination that is not blank gives an intermediate phrase. */
  lemma {:induction false} IntermediatesComplete(combos: seq<seq<string>>, c: seq<string>)
    requires c in combos && !AllSpace(Join(c))
    ensures NormalizeSpace(Join(c)) in Intermediates(combos)
    decreases |combos|
  {
    if c != combos[0] {
      assert c in combos[1..];
      IntermediatesComplete(combos[1..], c);
    }
  }

  /** Every intermediate phrase is normal and non-empty. */
  lemma IntermediatesNormal(combos: seq<seq<string>>, x: string)
    requires x in Intermediates(combos)
    ensures IsNormal(x) && |x| > 0
  {
    var c := IntermediatesSound(combos, x);
  }

  /** Every item its own segment. */
  function Singletons(ws: seq<string>): (segs: seq<seq<string>>)
    ensures |segs| == |ws|
    ensures forall k :: 0 <= k < |ws| ==> segs[k] == [ws[k]]
  {
    seq(|ws|, k requires 0 <= k < |ws| => [ws[k]])
  }

  /** With one alternative per segment there is a single combination. */
  lemma {:induction false} ProductSingletons(ws: seq<string>)
    ensures Product(Singletons(ws)) == [ws]
    decreases |ws|
  {
    var segs := Singletons(ws);
    if |ws| > 0 {
      assert segs[1..] == Singletons(ws[1..]);
      ProductSingletons(ws[1..]);
      assert segs[0] == [ws[0]];
      assert ProductWith([ws[0]], [ws[1..]]) == Prepend(ws[0], [ws[1..]]) + ProductWith([], [ws[1..]]);
      assert [ws[0]] + ws[1..] == ws;
    }
  }
}
