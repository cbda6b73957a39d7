/** `process_attached_parenthetical`: a token such as `word(suffix)` or
    `(prefix)word` stands for the word with and without each parenthesised
    part. */
module AttachedGroups {
  import opened Text
  import opened Options
  import opened Tokens

  predicate Distinct(xs: seq<string>) {
    forall i, j :: 0 <= i < j < |xs| ==> xs[i] != xs[j]
  }

  /** `list(dict.fromkeys(xs))`: the first occurrence of every value, in order. */
  function Dedupe(xs: seq<string>): (r: seq<string>)
    ensures Distinct(r)
    ensures forall x :: x in r <==> x in xs
    ensures |xs| > 0 ==> |r| > 0 && r[0] == xs[0]
    ensures Distinct(xs) ==> r == xs
  {
    if |xs| == 0 then []
    else
      var init := xs[..|xs| - 1];
      var last := xs[|xs| - 1];
      assert xs == init + [last];
      var d := Dedupe(init);
      assert Distinct(xs) ==> Distinct(init);
      if last in d then d else d + [last]
  }

  /** A duplicate-free prefix of the input is a prefix of the result: first
      occurrences keep their input order. */
  lemma {:induction false} DedupePrefix(xs: seq<string>, k: nat)
    requires k <= |xs| && Distinct(xs[..k])
    ensures k <= |Dedupe(xs)| && Dedupe(xs)[..k] == xs[..k]
    decreases |xs|
  {
    if k == |xs| {
      assert xs[..k] == xs;
    } else {
      var init := xs[..|xs| - 1];
      assert init[..k] == xs[..k];
      DedupePrefix(init, k);
      var d := Dedupe(init);
      assert (d + [xs[|xs| - 1]])[..k] == d[..k];
    }
  }

  /** First index at or after `from` holding a parenthesis, or the end. */
  function FirstParen(s: string, from: nat): (i: nat)
    requires from <= |s|
    ensures from <= i <= |s|
    ensures forall k :: from <= k < i ==> !IsParen(s[k])
    ensures i == |s| || IsParen(s[i])
    decreases |s| - from
  {
    if from == |s| || IsParen(s[from]) then from else FirstParen(s, from + 1)
  }

  datatype Split3 = Split3(prefix: string, content: string, suffix: string)

  /** The parts `t` is made of when split at one parenthesised group: the
      text before, the group's content, the text after, then possibly one
      line feed that ends the string. */
  predicate SplitsAs(t: string, p: string, c: string, x: string) {
    ParenFree(p) && ParenFree(c) && LineFeed !in x &&
    (t == p + "(" + c + ")" + x || t == p + "(" + c + ")" + x + [LineFeed])
  }

  /** `re.match(r"^([^()]*?)\(([^()]*?)\)(.*)$", t)`. The first parenthesis
      must open and the next one close; the text after the group may hold no
      line feed except one at the very end, which `$` lets the match skip. */
  function MatchAttached(t: string): (m: Option<Split3>)
    ensures m.Some? ==> |m.value.prefix| + |m.value.content| + |m.value.suffix| + 2 <= |t|
  {
    var i := FirstParen(t, 0);
    if i == |t| || t[i] != '(' then None
    else
      var j := FirstParen(t, i + 1);
      if j == |t| || t[j] != ')' then None
      else
        var tail := Trailing(t[j + 1..]);
        if tail.None? then None
        else Some(Split3(t[..i], t[i + 1..j], tail.value))
  }

  /** The match returns the parts the token is made of. */
  lemma MatchAttachedSound(t: string)
    ensures MatchAttached(t).Some? ==> SplitsAs(t, MatchAttached(t).value.prefix,
      MatchAttached(t).value.content, MatchAttached(t).value.suffix)
  {
    var i := FirstParen(t, 0);
    if i < |t| && t[i] == '(' {
      var j := FirstParen(t, i + 1);
      if j < |t| && t[j] == ')' {
        var tail := Trailing(t[j + 1..]);
        if tail.Some? {
          TrailingSound(t[j + 1..]);
          GroupSplit(t, i, j);
          AppendAssoc(t[..i] + "(" + t[i + 1..j] + ")", tail.value);
        }
      }
    }
  }

  /** The text after the group as `(.*)$` captures it: all of it when it
      holds no line feed, all but a final line feed that is its only one,
      and no match otherwise. */
  function Trailing(rest: string): (x: Option<string>)
    ensures x.Some? ==> LineFeed !in x.value
    ensures x.Some? ==> |x.value| <= |rest|
  {
    if LineFeed !in rest then Some(rest)
    else if rest[|rest| - 1] == LineFeed && LineFeed !in rest[..|rest| - 1] then
      Some(rest[..|rest| - 1])
    else None
  }

  /** What `Trailing` keeps is the text itself or the text before its final
      line feed. */
  lemma TrailingSound(rest: string)
    ensures Trailing(rest).Some? ==>
      rest == Trailing(rest).value || rest == Trailing(rest).value + [LineFeed]
  {
    if LineFeed in rest && rest[|rest| - 1] == LineFeed && LineFeed !in rest[..|rest| - 1] {
      DropLast(rest);
    }
  }

  /** A final line feed is dropped; text without one is kept whole. */
  lemma TrailingOf(x: string)
    requires LineFeed !in x
    ensures Trailing(x) == Some(x)
    ensures Trailing(x + [LineFeed]) == Some(x)
  {
    var rest := x + [LineFeed];
    assert rest[|rest| - 1] == LineFeed;
    assert rest[..|rest| - 1] == x;
  }

  lemma AppendAssoc(a: string, x: string)
    ensures a + (x + [LineFeed]) == a + x + [LineFeed]
  {
  }

  /** The text around an opening parenthesis at `i` and the closing one at
      `j`, with no parenthesis before `i` or between the two. */
  lemma GroupSplit(t: string, i: nat, j: nat)
    requires i < j < |t| && t[i] == '(' && t[j] == ')'
    requires forall k :: 0 <= k < i ==> !IsParen(t[k])
    requires forall k :: i + 1 <= k < j ==> !IsParen(t[k])
    ensures t == t[..i] + "(" + t[i + 1..j] + ")" + t[j + 1..]
    ensures ParenFree(t[..i]) && ParenFree(t[i + 1..j])
  {
    assert forall k :: 0 <= k < i ==> t[..i][k] == t[k];
    assert forall k :: i + 1 <= k < j ==> t[i + 1..j][k - i - 1] == t[k];
  }

  lemma DropLast(rest: string)
    requires |rest| > 0
    ensures rest == rest[..|rest| - 1] + [rest[|rest| - 1]]
  {
  }

  /** `FirstParen` stops at the first parenthesis from `from` on. */
  lemma {:induction false} FirstParenAt(t: string, from: nat, at: nat)
    requires from <= at < |t| && IsParen(t[at])
    requires forall k :: from <= k < at ==> !IsParen(t[k])
    ensures FirstParen(t, from) == at
    decreases at - from
  {
    if from < at {
      FirstParenAt(t, from + 1, at);
    }
  }

  /** Where the parts of `p(c)rest` lie in it. */
  lemma GroupLayout(t: string, p: string, c: string, rest: string)
    requires t == p + "(" + c + ")" + rest
    ensures |t| == |p| + |c| + 2 + |rest|
    ensures t[..|p|] == p && t[|p|] == '('
    ensures t[|p| + 1..|p| + 1 + |c|] == c && t[|p| + 1 + |c|] == ')'
    ensures t[|p| + 2 + |c|..] == rest
  {
    var a := p + "(";
    var b := a + c;
    var d := b + ")";
    JoinParts(d, rest);
    JoinParts(b, ")");
    JoinParts(a, c);
    JoinParts(p, "(");
    assert t[..|p|] == d[..|b|][..|a|][..|p|];
    assert t[|p| + 1..|p| + 1 + |c|] == d[..|b|][|a|..];
  }

  lemma JoinParts(x: string, y: string)
    ensures (x + y)[..|x|] == x && (x + y)[|x|..] == y
  {
  }

  /** The characters of a parenthesis-free slice. */
  lemma SliceParenFree(t: string, a: nat, b: nat)
    requires a <= b <= |t| && ParenFree(t[a..b])
    ensures forall k :: a <= k < b ==> !IsParen(t[k])
  {
    assert forall k :: a <= k < b ==> t[k] == t[a..b][k - a];
  }

  /** In `p(c)rest` with `p` and `c` free of parentheses, the first
      parenthesis is the `(` after `p` and the next one the `)` after `c`. */
  lemma ParensOfGroup(t: string, p: string, c: string, rest: string)
    requires t == p + "(" + c + ")" + rest && ParenFree(p) && ParenFree(c)
    ensures FirstParen(t, 0) == |p| && t[|p|] == '('
    ensures FirstParen(t, |p| + 1) == |p| + 1 + |c| && t[|p| + 1 + |c|] == ')'
    ensures t[..|p|] == p && t[|p| + 1..|p| + 1 + |c|] == c && t[|p| + 2 + |c|..] == rest
  {
    var i := |p|;
    var j := |p| + 1 + |c|;
    GroupLayout(t, p, c, rest);
    SliceParenFree(t, 0, i);
    SliceParenFree(t, i + 1, j);
    FirstParenAt(t, 0, i);
    FirstParenAt(t, i + 1, j);
  }

  /** What the match returns once both parentheses are found: the text
      before, the content, and what `Trailing` keeps of the rest. */
  lemma MatchAt(t: string, i: nat, j: nat, x: string)
    requires i < j < |t| && FirstParen(t, 0) == i && t[i] == '('
    requires FirstParen(t, i + 1) == j && t[j] == ')'
    requires Trailing(t[j + 1..]) == Some(x)
    ensures MatchAttached(t) == Some(Split3(t[..i], t[i + 1..j], x))
  {
  }

  /** The match finds every split of the right shape: it is unique. */
  lemma MatchAttachedComplete(t: string, p: string, c: string, x: string)
    requires SplitsAs(t, p, c, x)
    ensures MatchAttached(t) == Some(Split3(p, c, x))
  {
    if t == p + "(" + c + ")" + x {
      MatchOfGroup(t, p, c, x);
    } else {
      MatchOfGroupAtEnd(t, p, c, x);
    }
  }

  lemma MatchOfGroup(t: string, p: string, c: string, x: string)
    requires t == p + "(" + c + ")" + x && ParenFree(p) && ParenFree(c) && LineFeed !in x
    ensures MatchAttached(t) == Some(Split3(p, c, x))
  {
    var i := |p|;
    var j := |p| + 1 + |c|;
    assert j < |t| && FirstParen(t, 0) == i && t[i] == '(' && FirstParen(t, i + 1) == j && t[j] == ')'
      && t[..i] == p && t[i + 1..j] == c && t[j + 1..] == x by {
      ParensOfGroup(t, p, c, x);
    }
    TrailingOf(x);
    MatchAt(t, i, j, x);
  }

  lemma MatchOfGroupAtEnd(t: string, p: string, c: string, x: string)
    requires t == p + "(" + c + ")" + x + [LineFeed] && ParenFree(p) && ParenFree(c) && LineFeed !in x
    ensures MatchAttached(t) == Some(Split3(p, c, x))
  {
    var i := |p|;
    var j := |p| + 1 + |c|;
    var rest := x + [LineFeed];
    assert j + 1 < |t| && FirstParen(t, 0) == i && t[i] == '(' && FirstParen(t, i + 1) == j && t[j] == ')'
      && t[..i] == p && t[i + 1..j] == c && t[j + 1..] == rest by {
      assert t == p + "(" + c + ")" + rest;
      ParensOfGroup(t, p, c, rest);
    }
    TrailingOf(x);
    MatchAt(t, i, j, x);
  }

  /** `process_attached_parenthetical`: the alternatives a token stands for.
      The first group is resolved both ways, keeping its content and dropping
      it, recursively; duplicates are removed keeping first occurrences. */
  function Alternatives(token: string): (r: seq<string>)
    ensures |r| > 0 && Distinct(r)
    ensures MatchAttached(token).None? ==> r == [token]
    ensures forall x :: x in r ==> multiset(x) <= multiset(token)
    decreases |token|
  {
    match MatchAttached(token)
    case None => [token]
    case Some(m) =>
      var whole := m.prefix + m.content + m.suffix;
      var next := m.prefix + m.suffix;
      SplitShrinks(token, m);
      var keep := Alternatives(whole);
      if |next| > 0 && next != token then Dedupe(keep + Alternatives(next))
      else if |next| > 0 then Dedupe(keep + [next])
      else Dedupe(keep)
  }

  /** One step of the recursion: the alternatives of a token that matches
      are those of the token with the group's content kept, and those of the
      token with the group removed unless that is empty. */
  lemma AlternativesStep(token: string, m: Split3)
    requires MatchAttached(token) == Some(m)
    ensures |m.prefix + m.content + m.suffix| < |token| && |m.prefix + m.suffix| < |token|
    ensures forall x :: x in Alternatives(token) <==>
      x in Alternatives(m.prefix + m.content + m.suffix) ||
      (|m.prefix + m.suffix| > 0 && x in Alternatives(m.prefix + m.suffix))
  {
    SplitShrinks(token, m);
  }

  /** Both reduced tokens are made of characters of the token. */
  lemma SplitShrinks(token: string, m: Split3)
    requires MatchAttached(token) == Some(m)
    ensures multiset(m.prefix + m.content + m.suffix) <= multiset(token)
    ensures multiset(m.prefix + m.suffix) <= multiset(token)
  {
    MatchAttachedSound(token);
    var core := m.prefix + "(" + m.content + ")" + m.suffix;
    assert multiset(core) == multiset(m.prefix + m.content + m.suffix) + multiset{'(', ')'};
    assert multiset(core) <= multiset(token) by {
      if token != core {
        assert token == core + [LineFeed];
      }
    }
  }

  /** The guarded alternative branch of the source, taken when the reduced
      token equals the token, never runs: the reduced token is shorter. */
  lemma ReducedTokenDiffers(token: string)
    requires MatchAttached(token).Some?
    ensures MatchAttached(token).value.prefix + MatchAttached(token).value.suffix != token
  {
  }

  // ---------------------------------------------------------------------
  // The alternatives of a well-formed token

  /** A parenthesised group followed by plain text. */
  datatype Group = Group(content: string, after: string)

  predicate Plain(s: string) {
    ParenFree(s) && LineFeed !in s
  }

  predicate WellFormed(head: string, gs: seq<Group>) {
    Plain(head) && forall k :: 0 <= k < |gs| ==> Plain(gs[k].content) && Plain(gs[k].after)
  }

  /** `head(c1)a1(c2)a2…` */
  function Render(head: string, gs: seq<Group>): string
    decreases |gs|
  {
    if |gs| == 0 then head
    else head + "(" + gs[0].content + ")" + Render(gs[0].after, gs[1..])
  }

  /** The text obtained by keeping the content of group `k` exactly when `keep[k]`. */
  function Pick(head: string, gs: seq<Group>, keep: seq<bool>): string
    requires |keep| == |gs|
    decreases |gs|
  {
    if |gs| == 0 then head
    else head + (if keep[0] then gs[0].content else "") + Pick(gs[0].after, gs[1..], keep[1..])
  }

  function AllTrue(n: nat): (keep: seq<bool>)
    ensures |keep| == n && forall k :: 0 <= k < n ==> keep[k]
  {
    seq(n, _ => true)
  }

  lemma RenderPrepend(x: string, y: string, gs: seq<Group>)
    ensures Render(x + y, gs) == x + Render(y, gs)
  {
  }

  lemma PickPrepend(x: string, y: string, gs: seq<Group>, keep: seq<bool>)
    requires |keep| == |gs|
    ensures Pick(x + y, gs, keep) == x + Pick(y, gs, keep)
  {
  }

  /** Keeping or dropping the first group's content. */
  lemma PickFirst(head: string, gs: seq<Group>, keep: seq<bool>)
    requires |keep| == |gs| > 0
    ensures keep[0] ==> Pick(head, gs, keep) == Pick(head + gs[0].content + gs[0].after, gs[1..], keep[1..])
    ensures !keep[0] ==> Pick(head, gs, keep) == Pick(head + gs[0].after, gs[1..], keep[1..])
  {
    PickPrepend(head + gs[0].content, gs[0].after, gs[1..], keep[1..]);
    PickPrepend(head, gs[0].after, gs[1..], keep[1..]);
  }

  lemma {:induction false} RenderPlainTail(head: string, gs: seq<Group>)
    requires WellFormed(head, gs)
    ensures LineFeed !in Render(head, gs)
    decreases |gs|
  {
    if |gs| > 0 {
      assert WellFormed(gs[0].after, gs[1..]) by {
        forall k | 0 <= k < |gs| - 1 ensures Plain(gs[1..][k].content) && Plain(gs[1..][k].after) {
          assert gs[1..][k] == gs[k + 1];
        }
      }
      RenderPlainTail(gs[0].after, gs[1..]);
    }
  }

  lemma {:induction false} RenderEmpty(head: string, gs: seq<Group>)
    requires Render(head, gs) == ""
    ensures head == "" && gs == []
  {
  }

  lemma TailWellFormed(head: string, gs: seq<Group>, x: string)
    requires WellFormed(head, gs) && |gs| > 0 && Plain(x)
    ensures WellFormed(x, gs[1..])
  {
    forall k | 0 <= k < |gs| - 1 ensures Plain(gs[1..][k].content) && Plain(gs[1..][k].after) {
      assert gs[1..][k] == gs[k + 1];
    }
  }

  lemma PlainConcat(a: string, b: string)
    requires Plain(a) && Plain(b)
    ensures Plain(a + b)
  {
    forall k | 0 <= k < |a + b| ensures !IsParen((a + b)[k]) {
      if k < |a| { assert (a + b)[k] == a[k]; } else { assert (a + b)[k] == b[k - |a|]; }
    }
  }

  /** The match of a well-formed token with a group splits at its first group. */
  lemma MatchRendered(head: string, gs: seq<Group>)
    requires WellFormed(head, gs)
    ensures |gs| == 0 ==> MatchAttached(Render(head, gs)).None?
    ensures |gs| > 0 ==>
      (MatchAttached(Render(head, gs)) == Some(Split3(head, gs[0].content, Render(gs[0].after, gs[1..]))))
  {
    if |gs| == 0 {
      assert FirstParen(head, 0) == |head|;
    } else {
      var tail := Render(gs[0].after, gs[1..]);
      TailWellFormed(head, gs, gs[0].after);
      RenderPlainTail(gs[0].after, gs[1..]);
      MatchAttachedComplete(Render(head, gs), head, gs[0].content, tail);
    }
  }

  /** The two reductions of a well-formed token are well-formed tokens with
      one group fewer. */
  lemma ReductionsWellFormed(head: string, gs: seq<Group>)
    requires WellFormed(head, gs) && |gs| > 0
    ensures WellFormed(head + gs[0].content + gs[0].after, gs[1..])
    ensures WellFormed(head + gs[0].after, gs[1..])
  {
    var g := gs[0];
    assert WellFormed(head + g.content + g.after, gs[1..]) by {
      PlainConcat(head, g.content);
      PlainConcat(head + g.content, g.after);
      TailWellFormed(head, gs, head + g.content + g.after);
    }
    assert WellFormed(head + g.after, gs[1..]) by {
      PlainConcat(head, g.after);
      TailWellFormed(head, gs, head + g.after);
    }
  }

  /** The match of a well-formed token with a group, and its two readings:
      the first group's content kept, and dropped. */
  lemma MatchReadings(head: string, gs: seq<Group>) returns (m: Split3)
    requires WellFormed(head, gs) && |gs| > 0
    ensures MatchAttached(Render(head, gs)) == Some(m)
    ensures m.prefix + m.content + m.suffix == Render(head + gs[0].content + gs[0].after, gs[1..])
    ensures m.prefix + m.suffix == Render(head + gs[0].after, gs[1..])
  {
    var g := gs[0];
    var tail := Render(g.after, gs[1..]);
    m := Split3(head, g.content, tail);
    MatchRendered(head, gs);
    assert head + g.content + tail == Render(head + g.content + g.after, gs[1..]) by {
      RenderPrepend(head + g.content, g.after, gs[1..]);
    }
    assert head + tail == Render(head + g.after, gs[1..]) by {
      RenderPrepend(head, g.after, gs[1..]);
    }
  }

  /** The alternatives of a well-formed token with a group are those of the
      reading that keeps the first group's content and, unless it is empty,
      of the reading that drops it. */
  lemma Reductions(head: string, gs: seq<Group>)
    requires WellFormed(head, gs) && |gs| > 0
    ensures WellFormed(head + gs[0].content + gs[0].after, gs[1..])
    ensures WellFormed(head + gs[0].after, gs[1..])
    ensures forall x :: x in Alternatives(Render(head, gs)) <==>
      x in Alternatives(Render(head + gs[0].content + gs[0].after, gs[1..])) ||
      (|Render(head + gs[0].after, gs[1..])| > 0 && x in Alternatives(Render(head + gs[0].after, gs[1..])))
  {
    ReductionsWellFormed(head, gs);
    var m := MatchReadings(head, gs);
    AlternativesStep(Render(head, gs), m);
  }

  /** Every alternative keeps or drops each group's content: nothing else is
      produced. The returned `keep` says which contents the alternative keeps. */
  lemma {:induction false} AlternativesSound(head: string, gs: seq<Group>, x: string) returns (keep: seq<bool>)
    requires WellFormed(head, gs)
    requires x in Alternatives(Render(head, gs))
    ensures |keep| == |gs| && x == Pick(head, gs, keep)
    decreases |gs|
  {
    if |gs| == 0 {
      assert x == head by { MatchRendered(head, gs); }
      keep := [];
    } else {
      var g := gs[0];
      var kept := head + g.content + g.after;
      var dropped := head + g.after;
      Reductions(head, gs);
      var k;
      if x in Alternatives(Render(kept, gs[1..])) {
        k := AlternativesSound(kept, gs[1..], x);
        keep := [true] + k;
      } else {
        assert x in Alternatives(Render(dropped, gs[1..]));
        k := AlternativesSound(dropped, gs[1..], x);
        keep := [false] + k;
      }
      assert keep[1..] == k;
      PickFirst(head, gs, keep);
    }
  }

  /** Every non-empty way of keeping or dropping the groups' contents is
      among the alternatives. */
  lemma {:induction false} AlternativesComplete(head: string, gs: seq<Group>, keep: seq<bool>)
    requires WellFormed(head, gs) && |keep| == |gs|
    requires Pick(head, gs, keep) != ""
    ensures Pick(head, gs, keep) in Alternatives(Render(head, gs))
    decreases |gs|
  {
    if |gs| == 0 {
      MatchRendered(head, gs);
    } else {
      var g := gs[0];
      Reductions(head, gs);
      var k := keep[1..];
      PickFirst(head, gs, keep);
      if keep[0] {
        AlternativesComplete(head + g.content + g.after, gs[1..], k);
      } else {
        var next := Render(head + g.after, gs[1..]);
        AlternativesComplete(head + g.after, gs[1..], k);
        assert |next| > 0 by {
          if |next| == 0 { RenderEmpty(head + g.after, gs[1..]); }
        }
      }
    }
  }

  /** The alternatives of the reading that keeps the group's content come
      first, in their own order; those of the other reading follow. */
  lemma AlternativesKeptFirst(token: string, m: Split3)
    requires MatchAttached(token) == Some(m)
    ensures |Alternatives(m.prefix + m.content + m.suffix)| <= |Alternatives(token)|
    ensures Alternatives(token)[..|Alternatives(m.prefix + m.content + m.suffix)|]
         == Alternatives(m.prefix + m.content + m.suffix)
  {
    var whole := m.prefix + m.content + m.suffix;
    var next := m.prefix + m.suffix;
    var kept := Alternatives(whole);
    var tail := if |next| > 0 && next != token then Alternatives(next)
      else if |next| > 0 then [next] else [];
    assert Alternatives(token) == Dedupe(kept + tail) by {
      assert kept + [] == kept;
    }
    assert (kept + tail)[..|kept|] == kept;
    DedupePrefix(kept + tail, |kept|);
  }

  /** On a well-formed token the same holds of the rendered readings. */
  lemma AlternativesKeptPrefix(head: string, gs: seq<Group>)
    requires WellFormed(head, gs) && |gs| > 0
    ensures var kept := Alternatives(Render(head + gs[0].content + gs[0].after, gs[1..]));
      |kept| <= |Alternatives(Render(head, gs))| &&
      Alternatives(Render(head, gs))[..|kept|] == kept
  {
    var m := MatchReadings(head, gs);
    AlternativesKeptFirst(Render(head, gs), m);
  }

  /** The first alternative keeps every group's content. */
  lemma {:induction false} AlternativesFirst(head: string, gs: seq<Group>)
    requires WellFormed(head, gs)
    ensures Alternatives(Render(head, gs))[0] == Pick(head, gs, AllTrue(|gs|))
    decreases |gs|
  {
    if |gs| == 0 {
      MatchRendered(head, gs);
    } else {
      var g := gs[0];
      var whole := head + g.content + g.after;
      var kept := Alternatives(Render(whole, gs[1..]));
      ReductionsWellFormed(head, gs);
      AlternativesKeptPrefix(head, gs);
      assert Alternatives(Render(head, gs))[0] == kept[0] by {
        assert kept[0] == Alternatives(Render(head, gs))[..|kept|][0];
      }
      AlternativesFirst(whole, gs[1..]);
      assert AllTrue(|gs|)[1..] == AllTrue(|gs| - 1);
      PickFirst(head, gs, AllTrue(|gs|));
    }
  }

  lemma DedupeTwo(a: string, b: string)
    ensures Dedupe([a, b]) == if a == b then [a] else [a, b]
  {
    assert [a, b][..1] == [a];
    assert Dedupe([a]) == [a] by { assert [a][..0] == []; }
  }

  /** The alternatives of a token with one group around plain text: the
      reading with the content, then the one without it unless that is empty
      or the same. */
  lemma AlternativesOfPlainPair(token: string, m: Split3)
    requires MatchAttached(token) == Some(m)
    requires MatchAttached(m.prefix + m.content + m.suffix).None?
    requires MatchAttached(m.prefix + m.suffix).None?
    ensures var whole := m.prefix + m.content + m.suffix;
      var next := m.prefix + m.suffix;
      Alternatives(token) ==
        if |next| == 0 || whole == next then [whole] else [whole, next]
  {
    var whole := m.prefix + m.content + m.suffix;
    var next := m.prefix + m.suffix;
    SplitShrinks(token, m);
    if |next| > 0 {
      assert Alternatives(token) == Dedupe([whole] + [next]);
      DedupeTwo(whole, next);
    } else {
      assert Alternatives(token) == Dedupe([whole]);
      assert [whole][..0] == [];
    }
  }

  /** The readings of `w(c)x` when all three parts are plain. */
  lemma OneGroupReadings(w: string, c: string, x: string)
    requires Plain(w) && Plain(c) && Plain(x)
    ensures Alternatives(w + "(" + c + ")" + x) ==
      if |w + x| == 0 || w + c + x == w + x then [w + c + x] else [w + c + x, w + x]
  {
    var t := w + "(" + c + ")" + x;
    var m := Split3(w, c, x);
    assert MatchAttached(t) == Some(m) by {
      MatchOfGroup(t, w, c, x);
    }
    assert MatchAttached(w + c + x).None? by {
      PlainConcat(w, c);
      PlainConcat(w + c, x);
      MatchRendered(w + c + x, []);
    }
    assert MatchAttached(w + x).None? by {
      PlainConcat(w, x);
      MatchRendered(w + x, []);
    }
    AlternativesOfPlainPair(t, m);
  }

  /** `word(suffix)`: the word with the suffix, then the word alone; when
      nothing but the group is present only the content remains. */
  lemma AlternativesOneGroup(w: string, c: string, x: string)
    requires Plain(w) && Plain(c) && Plain(x)
    ensures Alternatives(w + "(" + c + ")" + x) ==
      if w + x == "" then [c]
      else if c == "" then [w + x]
      else [w + c + x, w + x]
  {
    OneGroupReadings(w, c, x);
    ReadingsCases(w, c, x);
  }

  lemma ReadingsCases(w: string, c: string, x: string)
    ensures (if |w + x| == 0 || w + c + x == w + x then [w + c + x] else [w + c + x, w + x]) ==
      if w + x == "" then [c]
      else if c == "" then [w + x]
      else [w + c + x, w + x]
  {
    if w + x == "" {
      assert w + c + x == c;
    } else if c == "" {
      assert w + c + x == w + x;
    } else {
      assert |w + c + x| != |w + x|;
    }
  }
}
