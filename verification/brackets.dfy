/** `remove_unmatched_brackets`: one left-to-right scan with a single stack
    shared by `()`, `[]` and `{}`, then a pass that drops every position the
    scan marked. */
module Brackets {

  predicate IsOpener(c: char) { c == '(' || c == '[' || c == '{' }

  predicate IsCloser(c: char) { c == ')' || c == ']' || c == '}' }

  predicate IsBracket(c: char) { IsOpener(c) || IsCloser(c) }

  /** The `pairs` table: the opener each closer must meet. */
  function OpenerOf(c: char): (o: char)
    requires IsCloser(c)
    ensures IsOpener(o)
  {
    match c
    case ')' => '('
    case ']' => '['
    case _ => '{'
  }

  /** A stack entry: an opening character and its index. */
  datatype Open = Open(ch: char, pos: nat)

  /** The scan's state: the stack of still-open entries and the indices marked unmatched. */
  datatype ScanState = ScanState(stack: seq<Open>, unmatched: set<nat>)

  /** One iteration of the scan loop on `s[i]`. */
  function Step(s: string, i: nat, st: ScanState): ScanState
    requires i < |s|
  {
    var c := s[i];
    if IsOpener(c) then ScanState(st.stack + [Open(c, i)], st.unmatched)
    else if IsCloser(c) then
      if |st.stack| > 0 && OpenerOf(c) == st.stack[|st.stack| - 1].ch then
        ScanState(st.stack[..|st.stack| - 1], st.unmatched)
      else ScanState(st.stack, st.unmatched + {i})
    else st
  }

  /** The scan loop from index `i` to the end. */
  function ScanFrom(s: string, i: nat, st: ScanState): ScanState
    requires i <= |s|
    decreases |s| - i
  {
    if i == |s| then st else ScanFrom(s, i + 1, Step(s, i, st))
  }

  /** Every index the scan leaves unmatched: closers it could not pair and
      openers still on the stack at the end. */
  function Unmatched(s: string): set<nat>
  {
    Marks(ScanFrom(s, 0, ScanState([], {})))
  }

  /** The indices a final scan state marks for deletion. */
  function Marks(fin: ScanState): set<nat>
  {
    fin.unmatched + (set o | o in fin.stack :: o.pos)
  }

  /** The characters of `s` from index `i` on whose index is not in `u`. */
  function KeepFrom(s: string, u: set<nat>, i: nat): string
    requires i <= |s|
    decreases |s| - i
  {
    if i == |s| then ""
    else (if i in u then "" else [s[i]]) + KeepFrom(s, u, i + 1)
  }

  /** Read left to right with one stack, every closer meets its own opener on
      top of the stack and no opener is left over at the end. */
  predicate BalancedFrom(t: string, open: seq<char>)
    decreases |t|
  {
    if |t| == 0 then open == []
    else if IsOpener(t[0]) then BalancedFrom(t[1..], open + [t[0]])
    else if IsCloser(t[0]) then
      |open| > 0 && open[|open| - 1] == OpenerOf(t[0]) && BalancedFrom(t[1..], open[..|open| - 1])
    else BalancedFrom(t[1..], open)
  }

  predicate Balanced(t: string) { BalancedFrom(t, []) }

  /** `r` is `s` with some bracket characters deleted: every other character
      is kept, in order. */
  predicate DropsOnlyBrackets(s: string, r: string)
    decreases |s|
  {
    if |s| == 0 then |r| == 0
    else
      || (|r| > 0 && r[0] == s[0] && DropsOnlyBrackets(s[1..], r[1..]))
      || (IsBracket(s[0]) && DropsOnlyBrackets(s[1..], r))
  }

  /** `remove_unmatched_brackets(phrase)`: deletes bracket characters only, and
      the brackets it keeps nest properly with matching types. */
  function RemoveUnmatched(s: string): (r: string)
    ensures DropsOnlyBrackets(s, r)
    ensures Balanced(r)
  {
    var init := ScanState([], {});
    UnmatchedAreBrackets(s, 0, init);
    KeepDropsOnlyBrackets(s, Unmatched(s), 0);
    KeptIsBalanced(s);
    KeepFrom(s, Unmatched(s), 0)
  }

  // ---------------------------------------------------------------------
  // Facts about the scan

  /** The scan's invariant after reading `s[..i]`: stack entries are openers
      read earlier, in increasing index order; marked indices are earlier closers. */
  predicate Valid(s: string, i: nat, st: ScanState) {
    && i <= |s|
    && (forall k :: 0 <= k < |st.stack| ==>
          st.stack[k].pos < i && s[st.stack[k].pos] == st.stack[k].ch && IsOpener(st.stack[k].ch))
    && (forall a, b :: 0 <= a < b < |st.stack| ==> st.stack[a].pos < st.stack[b].pos)
    && (forall x :: x in st.unmatched ==> x < i && IsCloser(s[x]))
  }

  lemma StepValid(s: string, i: nat, st: ScanState)
    requires i < |s| && Valid(s, i, st)
    ensures Valid(s, i + 1, Step(s, i, st))
  {
  }

  lemma {:induction false} ScanValid(s: string, i: nat, st: ScanState)
    requires Valid(s, i, st)
    ensures Valid(s, |s|, ScanFrom(s, i, st))
    decreases |s| - i
  {
    if i < |s| {
      StepValid(s, i, st);
      ScanValid(s, i + 1, Step(s, i, st));
    }
  }

  /** The scan never changes its verdict on indices already read. */
  lemma {:induction false} ScanKeepsEarlierMarks(s: string, i: nat, st: ScanState)
    requires i <= |s|
    ensures forall x :: x < i ==> (x in ScanFrom(s, i, st).unmatched <==> x in st.unmatched)
    decreases |s| - i
  {
    if i < |s| {
      ScanKeepsEarlierMarks(s, i + 1, Step(s, i, st));
    }
  }

  /** An entry on the final stack that was pushed before index `i` was already on the stack at `i`. */
  lemma {:induction false} FinalStackFromEarlier(s: string, i: nat, st: ScanState)
    requires i <= |s|
    ensures forall o :: o in ScanFrom(s, i, st).stack && o.pos < i ==> o in st.stack
    decreases |s| - i
  {
    if i < |s| {
      FinalStackFromEarlier(s, i + 1, Step(s, i, st));
    }
  }

  lemma UnmatchedAreBrackets(s: string, i: nat, st: ScanState)
    requires Valid(s, i, st)
    ensures forall x :: x in Unmatched(s) ==> x < |s| && IsBracket(s[x])
  {
    var init := ScanState([], {});
    ScanValid(s, 0, init);
    var fin := ScanFrom(s, 0, init);
    forall x | x in Unmatched(s) ensures x < |s| && IsBracket(s[x]) {
      if x !in fin.unmatched {
        var o :| o in fin.stack && o.pos == x;
        var k :| 0 <= k < |fin.stack| && fin.stack[k] == o;
      }
    }
  }

  lemma {:induction false} KeepDropsOnlyBrackets(s: string, u: set<nat>, i: nat)
    requires i <= |s|
    requires forall x :: x in u ==> x < |s| && IsBracket(s[x])
    ensures DropsOnlyBrackets(s[i..], KeepFrom(s, u, i))
    decreases |s| - i
  {
    if i < |s| {
      KeepDropsOnlyBrackets(s, u, i + 1);
      assert s[i..][1..] == s[i + 1..];
      var k := KeepFrom(s, u, i);
      if i !in u {
        assert k[1..] == KeepFrom(s, u, i + 1);
      } else {
        assert k == KeepFrom(s, u, i + 1);
      }
    }
  }

  /** The opening characters of the entries of `stack` that are not in `fin`. */
  function Pending(stack: seq<Open>, fin: seq<Open>): seq<char>
  {
    if |stack| == 0 then []
    else
      var last := stack[|stack| - 1];
      Pending(stack[..|stack| - 1], fin) + (if last in fin then [] else [last.ch])
  }

  lemma {:induction false} PendingAllFinal(stack: seq<Open>, fin: seq<Open>)
    requires forall k :: 0 <= k < |stack| ==> stack[k] in fin
    ensures Pending(stack, fin) == []
    decreases |stack|
  {
    if |stack| > 0 {
      PendingAllFinal(stack[..|stack| - 1], fin);
    }
  }

  /** Only an opener can be left on the final stack, and it is recorded with its own character. */
  lemma FinalPositions(s: string, fin: ScanState, x: nat)
    requires Valid(s, |s|, fin)
    requires x in Marks(fin) && x !in fin.unmatched
    ensures x < |s| && IsOpener(s[x]) && Open(s[x], x) in fin.stack
  {
    var o :| o in fin.stack && o.pos == x;
    var k :| 0 <= k < |fin.stack| && fin.stack[k] == o;
  }

  /** Whether index `i` ends up deleted is settled by the step that reads it,
      except for an opener, which is deleted when it is still on the final stack. */
  lemma MarkAtStep(s: string, i: nat, st: ScanState)
    requires i < |s| && Valid(s, i, st)
    ensures
      var st' := Step(s, i, st);
      var fin := ScanFrom(s, i + 1, st');
      i in Marks(fin) <==> (i in st'.unmatched || (IsOpener(s[i]) && Open(s[i], i) in fin.stack))
  {
    var st' := Step(s, i, st);
    var fin := ScanFrom(s, i + 1, st');
    StepValid(s, i, st);
    ScanValid(s, i + 1, st');
    ScanKeepsEarlierMarks(s, i + 1, st');
    if i in Marks(fin) && i !in fin.unmatched {
      FinalPositions(s, fin, i);
    }
  }

  /** A stack entry popped at index `i` is not on the final stack. */
  lemma PoppedNotFinal(s: string, i: nat, st: ScanState)
    requires i < |s| && Valid(s, i, st)
    requires IsCloser(s[i]) && |st.stack| > 0 && OpenerOf(s[i]) == st.stack[|st.stack| - 1].ch
    ensures st.stack[|st.stack| - 1] !in ScanFrom(s, i + 1, Step(s, i, st)).stack
  {
    var st' := Step(s, i, st);
    var top := st.stack[|st.stack| - 1];
    assert top !in st'.stack && top.pos < i + 1 by {
      TopNotBelow(st.stack);
      assert st'.stack == st.stack[..|st.stack| - 1];
    }
    NotOnFinalStack(s, i + 1, st', top);
  }

  /** An entry read before index `i` and off the stack at `i` never returns to it. */
  lemma NotOnFinalStack(s: string, i: nat, st: ScanState, o: Open)
    requires i <= |s| && o !in st.stack && o.pos < i
    ensures o !in ScanFrom(s, i, st).stack
  {
    FinalStackFromEarlier(s, i, st);
  }

  /** In a stack of increasing positions the top entry occurs only once. */
  lemma TopNotBelow(stack: seq<Open>)
    requires |stack| > 0
    requires forall a, b :: 0 <= a < b < |stack| ==> stack[a].pos < stack[b].pos
    ensures stack[|stack| - 1] !in stack[..|stack| - 1]
  {
    var n := |stack| - 1;
    forall k | 0 <= k < n ensures stack[..n][k] != stack[n] {
      assert stack[..n][k].pos < stack[n].pos;
    }
  }

  /** One step of `BalancedFrom` on a string that starts with `c`. */
  lemma BalancedCons(c: char, rest: string, open: seq<char>)
    ensures BalancedFrom([c] + rest, open) ==
      if IsOpener(c) then BalancedFrom(rest, open + [c])
      else if IsCloser(c) then
        |open| > 0 && open[|open| - 1] == OpenerOf(c) && BalancedFrom(rest, open[..|open| - 1])
      else BalancedFrom(rest, open)
  {
    assert ([c] + rest)[1..] == rest;
  }

  /** The heart of the proof: reading the kept characters from index `i` on,
      starting from the openers on the stack that will eventually be matched,
      balances. */
  lemma {:induction false} KeptIsBalancedFrom(s: string, i: nat, st: ScanState)
    requires Valid(s, i, st)
    ensures
      var fin := ScanFrom(s, i, st);
      BalancedFrom(KeepFrom(s, Marks(fin), i), Pending(st.stack, fin.stack))
    decreases |s| - i
  {
    var fin := ScanFrom(s, i, st);
    var u := Marks(fin);
    if i == |s| {
      PendingAllFinal(st.stack, fin.stack);
    } else {
      var c := s[i];
      var st' := Step(s, i, st);
      StepValid(s, i, st);
      KeptIsBalancedFrom(s, i + 1, st');
      MarkAtStep(s, i, st);
      assert fin == ScanFrom(s, i + 1, st');
      var rest := KeepFrom(s, u, i + 1);
      var p := Pending(st.stack, fin.stack);
      var p' := Pending(st'.stack, fin.stack);
      assert BalancedFrom(rest, p');
      if IsOpener(c) {
        assert st'.stack[..|st'.stack| - 1] == st.stack;
        if Open(c, i) !in fin.stack {
          assert p' == p + [c];
          assert i !in u;
          assert KeepFrom(s, u, i) == [c] + rest;
          BalancedCons(c, rest, p);
        } else {
          assert p' == p;
          assert KeepFrom(s, u, i) == rest;
        }
      } else if IsCloser(c) && |st.stack| > 0 && OpenerOf(c) == st.stack[|st.stack| - 1].ch {
        PoppedNotFinal(s, i, st);
        assert p == p' + [OpenerOf(c)];
        assert p[..|p| - 1] == p';
        assert i !in u;
        assert KeepFrom(s, u, i) == [c] + rest;
        BalancedCons(c, rest, p);
      } else if !IsCloser(c) {
        assert i !in u;
        assert KeepFrom(s, u, i) == [c] + rest;
        BalancedCons(c, rest, p);
      } else {
        assert i in u;
        assert KeepFrom(s, u, i) == rest;
      }
    }
  }

  lemma KeptIsBalanced(s: string)
    ensures Balanced(KeepFrom(s, Unmatched(s), 0))
  {
    KeptIsBalancedFrom(s, 0, ScanState([], {}));
  }

  // ---------------------------------------------------------------------
  // Idempotence

  lemma {:induction false} PendingLength(stack: seq<Open>)
    ensures |Pending(stack, [])| == |stack|
    ensures |stack| > 0 ==> Pending(stack, [])[|stack| - 1] == stack[|stack| - 1].ch
    decreases |stack|
  {
    if |stack| > 0 {
      PendingLength(stack[..|stack| - 1]);
    }
  }

  /** The pending openers of a stack with one more entry on top. */
  lemma PendingPush(stack: seq<Open>, o: Open)
    ensures Pending(stack + [o], []) == Pending(stack, []) + [o.ch]
  {
    assert (stack + [o])[..|stack|] == stack;
  }

  /** One step of the scan over a string that is balanced from the current
      stack marks nothing, and the rest is balanced from the new stack. */
  lemma StepOfBalanced(t: string, i: nat, st: ScanState)
    requires i < |t|
    requires BalancedFrom(t[i..], Pending(st.stack, []))
    ensures Step(t, i, st).unmatched == st.unmatched
    ensures BalancedFrom(t[i + 1..], Pending(Step(t, i, st).stack, []))
  {
    var c := t[i];
    var p := Pending(st.stack, []);
    assert t[i..] == [c] + t[i + 1..];
    BalancedCons(c, t[i + 1..], p);
    if IsOpener(c) {
      PendingPush(st.stack, Open(c, i));
    } else if IsCloser(c) {
      PendingLength(st.stack);
      assert |p| > 0 && p[|p| - 1] == OpenerOf(c);
      var n := |st.stack| - 1;
      assert st.stack == st.stack[..n] + [st.stack[n]];
      PendingPush(st.stack[..n], st.stack[n]);
      assert p[..|p| - 1] == Pending(st.stack[..n], []);
    }
  }

  /** Scanning a string that is balanced from the current stack marks nothing
      and empties the stack. */
  lemma {:induction false} ScanOfBalanced(t: string, i: nat, st: ScanState)
    requires i <= |t|
    requires BalancedFrom(t[i..], Pending(st.stack, []))
    ensures ScanFrom(t, i, st).unmatched == st.unmatched
    ensures ScanFrom(t, i, st).stack == []
    decreases |t| - i
  {
    if i < |t| {
      StepOfBalanced(t, i, st);
      ScanOfBalanced(t, i + 1, Step(t, i, st));
    } else {
      PendingLength(st.stack);
    }
  }

  lemma {:induction false} KeepNothing(t: string, i: nat)
    requires i <= |t|
    ensures KeepFrom(t, {}, i) == t[i..]
    decreases |t| - i
  {
    if i < |t| {
      KeepNothing(t, i + 1);
      assert t[i..] == [t[i]] + t[i + 1..];
    }
  }

  /** A string is left unchanged exactly when its brackets are already balanced. */
  lemma RemoveUnmatchedFixpoint(t: string)
    ensures RemoveUnmatched(t) == t <==> Balanced(t)
  {
    if Balanced(t) {
      var init := ScanState([], {});
      ScanOfBalanced(t, 0, init);
      assert Unmatched(t) == {};
      KeepNothing(t, 0);
    }
  }

  /** Applying the cleaner twice is the same as applying it once. */
  lemma RemoveUnmatchedIdempotent(s: string)
    ensures RemoveUnmatched(RemoveUnmatched(s)) == RemoveUnmatched(s)
  {
    RemoveUnmatchedFixpoint(RemoveUnmatched(s));
  }

  // ---------------------------------------------------------------------
  // Only the bracket characters matter

  /** The bracket characters of `t`, in order. */
  function BracketsOf(t: string): string
    decreases |t|
  {
    if |t| == 0 then ""
    else (if IsBracket(t[0]) then [t[0]] else "") + BracketsOf(t[1..])
  }

  lemma {:induction false} BracketsOfConcat(a: string, b: string)
    ensures BracketsOf(a + b) == BracketsOf(a) + BracketsOf(b)
    decreases |a|
  {
    if |a| > 0 {
      assert (a + b)[1..] == a[1..] + b;
      BracketsOfConcat(a[1..], b);
    } else {
      assert a + b == b;
    }
  }

  /** Whether a string balances depends on its bracket characters alone. */
  lemma {:induction false} BalancedOnlyBrackets(t: string, open: seq<char>)
    ensures BalancedFrom(t, open) == BalancedFrom(BracketsOf(t), open)
    decreases |t|
  {
    if |t| > 0 {
      var b := BracketsOf(t[1..]);
      if IsBracket(t[0]) {
        BracketsOfConcat([t[0]], t[1..]);
        BalancedCons(t[0], b, open);
        BalancedOnlyBrackets(t[1..], open + [t[0]]);
        if |open| > 0 {
          BalancedOnlyBrackets(t[1..], open[..|open| - 1]);
        }
      } else {
        assert BracketsOf(t) == b;
        BalancedOnlyBrackets(t[1..], open);
      }
    }
  }
}
