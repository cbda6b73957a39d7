/** The `tokenize` step of `generate_combinations` and the two token
    classifiers `is_parenthetical` and `is_attached_parenthetical`. */
module Tokens {
  import opened Text

  predicate IsParen(c: char) {
    c == '(' || c == ')'
  }

  predicate ParenFree(s: string) {
    forall i :: 0 <= i < |s| ==> !IsParen(s[i])
  }

  /** How the nesting level moves over one character. */
  function Delta(c: char): int {
    if c == '(' then 1 else if c == ')' then -1 else 0
  }

  /** Opening minus closing parentheses in `p`; it may be negative, as the
      level of the scan is never clamped. */
  function Depth(p: string): int
  {
    if |p| == 0 then 0 else Depth(p[..|p| - 1]) + Delta(p[|p| - 1])
  }

  /** Position `i` separates tokens: a whitespace character where the
      parentheses before it balance out. */
  predicate Separator(s: string, i: nat)
    requires i < |s|
  {
    IsSpace(s[i]) && Depth(s[..i]) == 0
  }

  /** The characters of `s` that end up inside some token. */
  function Kept(s: string): (r: string)
    ensures |r| <= |s|
  {
    if |s| == 0 then ""
    else Kept(s[..|s| - 1]) + (if Separator(s, |s| - 1) then "" else [s[|s| - 1]])
  }

  function Concat(xs: seq<string>): string
  {
    if |xs| == 0 then "" else xs[0] + Concat(xs[1..])
  }

  /** The scan of `tokenize` over the rest `t` of the phrase, with the level
      reached so far and the token being built. */
  function Scan(t: string, level: int, cur: string): (tokens: seq<string>)
    ensures forall k :: 0 <= k < |tokens| ==> |tokens[k]| > 0
    decreases |t|
  {
    if |t| == 0 then (if |cur| > 0 then [cur] else [])
    else
      var c := t[0];
      if c == '(' then Scan(t[1..], level + 1, cur + [c])
      else if c == ')' then Scan(t[1..], level - 1, cur + [c])
      else if IsSpace(c) && level == 0 then
        (if |cur| > 0 then [cur] else []) + Scan(t[1..], level, "")
      else Scan(t[1..], level, cur + [c])
  }

  /** `tokenize`: splits at whitespace outside parentheses. */
  function Tokenize(s: string): (tokens: seq<string>)
    ensures forall k :: 0 <= k < |tokens| ==> |tokens[k]| > 0
    ensures Concat(tokens) == Kept(s)
  {
    assert s[..0] == "" && s[0..] == s;
    ScanKeeps(s, 0, "", "");
    Scan(s, 0, "")
  }

  lemma DepthSnoc(p: string, c: char)
    ensures Depth(p + [c]) == Depth(p) + Delta(c)
  {
    assert (p + [c])[..|p|] == p;
  }

  lemma KeptSnoc(p: string, c: char)
    ensures Kept(p + [c]) == Kept(p) + (if IsSpace(c) && Depth(p) == 0 then "" else [c])
  {
    assert (p + [c])[..|p|] == p;
  }

  /** The scan keeps exactly the non-separator characters, in order. */
  lemma {:induction false} ScanKeeps(s: string, i: nat, done: string, cur: string)
    requires i <= |s| && Kept(s[..i]) == done + cur
    ensures done + Concat(Scan(s[i..], Depth(s[..i]), cur)) == Kept(s)
    decreases |s| - i
  {
    var p := s[..i];
    if i == |s| {
      assert p == s && s[i..] == [];
      assert Concat(if |cur| > 0 then [cur] else []) == cur;
    } else {
      var c := s[i];
      var t := s[i..];
      assert s[..i + 1] == p + [c];
      assert t[0] == c && t[1..] == s[i + 1..];
      if IsSpace(c) && Depth(p) == 0 {
        assert Kept(s[..i + 1]) == done + cur && Depth(s[..i + 1]) == Depth(p) by {
          KeptSnoc(p, c);
          DepthSnoc(p, c);
        }
        var rest := Scan(s[i + 1..], Depth(s[..i + 1]), "");
        assert done + Concat(Scan(t, Depth(p), cur)) == (done + cur) + Concat(rest) by {
          ScanStep(t, Depth(p), cur);
          ConcatCons(cur, rest);
        }
        ScanKeeps(s, i + 1, done + cur, "");
      } else {
        assert Kept(s[..i + 1]) == done + (cur + [c]) && Depth(s[..i + 1]) == Depth(p) + Delta(c) by {
          KeptSnoc(p, c);
          DepthSnoc(p, c);
        }
        assert Scan(t, Depth(p), cur) == Scan(s[i + 1..], Depth(s[..i + 1]), cur + [c]) by {
          ScanStep(t, Depth(p), cur);
        }
        ScanKeeps(s, i + 1, done, cur + [c]);
      }
    }
  }

  /** One character of the scan: a separator ends the token being built,
      anything else joins it and moves the level. */
  lemma ScanStep(t: string, level: int, cur: string)
    requires |t| > 0
    ensures IsSpace(t[0]) && level == 0 ==>
      Scan(t, level, cur) == (if |cur| > 0 then [cur] else []) + Scan(t[1..], level, "")
    ensures !(IsSpace(t[0]) && level == 0) ==>
      Scan(t, level, cur) == Scan(t[1..], level + Delta(t[0]), cur + [t[0]])
  {
  }

  lemma ConcatCons(x: string, rest: seq<string>)
    ensures Concat((if |x| > 0 then [x] else []) + rest) == x + Concat(rest)
  {
    if |x| > 0 {
      assert ([x] + rest)[1..] == rest;
    } else {
      assert [] + rest == rest;
    }
  }

  /** Without parentheses the tokens are the whitespace-separated words. */
  lemma TokenizeWithoutParens(s: string)
    requires ParenFree(s)
    ensures Tokenize(s) == Words(s)
  {
    ScanWords(s, "");
    assert "" + s == s;
  }

  lemma {:induction false} ScanWords(t: string, cur: string)
    requires ParenFree(t) && NoSpace(cur)
    ensures Scan(t, 0, cur) == Words(cur + t)
    decreases |t|
  {
    if |t| == 0 {
      assert cur + t == cur;
      if |cur| > 0 {
        SpanWordOfWord(cur, "");
        assert cur + "" == cur;
        assert cur[|cur|..] == "";
      }
    } else {
      var c := t[0];
      assert !IsParen(c);
      assert ParenFree(t[1..]) by { forall i | 0 <= i < |t| - 1 ensures !IsParen(t[1..][i]) { assert t[1..][i] == t[i + 1]; } }
      if IsSpace(c) {
        ScanWords(t[1..], "");
        assert "" + t[1..] == t[1..];
        if |cur| > 0 {
          SpanWordOfWord(cur, t);
          assert (cur + t)[..|cur|] == cur;
          assert (cur + t)[|cur|..] == t;
        } else {
          assert cur + t == t;
        }
      } else {
        ScanWords(t[1..], cur + [c]);
        assert (cur + [c]) + t[1..] == cur + t;
      }
    }
  }

  /** `is_parenthetical`: the whole token is `(…)` with no parenthesis inside. */
  predicate IsParenthetical(t: string) {
    |t| >= 2 && t[0] == '(' && t[|t| - 1] == ')' && ParenFree(t[1..|t| - 1])
  }

  /** `is_attached_parenthetical`: the token holds both parentheses but is
      not a bare parenthetical, as in `word(suffix)` or `(prefix)word`. */
  predicate IsAttached(t: string) {
    '(' in t && ')' in t && !IsParenthetical(t)
  }

  /** The two classifiers exclude each other and a parenthetical holds both
      parentheses. */
  lemma ParentheticalNotAttached(t: string)
    requires IsParenthetical(t)
    ensures !IsAttached(t)
    ensures '(' in t && ')' in t
  {
    assert t[0] == '(';
    assert t[|t| - 1] == ')';
  }

  /** The words of a text without parentheses have none either. */
  lemma {:induction false} WordsParenFree(s: string)
    requires ParenFree(s)
    ensures forall k :: 0 <= k < |Words(s)| ==> ParenFree(Words(s)[k])
    decreases |s|
  {
    if |s| > 0 {
      var t := if IsSpace(s[0]) then s[1..] else s[SpanWord(s)..];
      assert ParenFree(t) by {
        forall i | 0 <= i < |t| ensures !IsParen(t[i]) { assert t[i] == s[|s| - |t| + i]; }
      }
      WordsParenFree(t);
      if !IsSpace(s[0]) {
        var w := s[..SpanWord(s)];
        assert ParenFree(w) by { forall i | 0 <= i < |w| ensures !IsParen(w[i]) { assert w[i] == s[i]; } }
        assert Words(s) == [w] + Words(t);
      }
    }
  }

  /** Without whitespace the scan never splits. */
  lemma {:induction false} ScanWithoutSpace(t: string, level: int, cur: string)
    requires NoSpace(t)
    ensures Scan(t, level, cur) == if |cur + t| > 0 then [cur + t] else []
    decreases |t|
  {
    if |t| > 0 {
      var c := t[0];
      assert !IsSpace(c);
      assert NoSpace(t[1..]) by { forall i | 0 <= i < |t| - 1 ensures !IsSpace(t[1..][i]) { assert t[1..][i] == t[i + 1]; } }
      ScanWithoutSpace(t[1..], Depth([]) + level + Delta(c), cur + [c]);
      assert (cur + [c]) + t[1..] == cur + t;
    } else {
      assert cur + t == cur;
    }
  }

  /** A phrase without whitespace is one token. */
  lemma TokenizeWord(s: string)
    requires IsWord(s)
    ensures Tokenize(s) == [s]
  {
    ScanWithoutSpace(s, 0, "");
    assert "" + s == s;
  }
}
