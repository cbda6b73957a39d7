/** Python's whitespace handling as the phrase expander uses it: `str.isspace`,
    `str.strip()`, `str.split()` with no separator and `" ".join`.
    `\s` in the patterns, `split()` and `strip()` all classify characters by
    the same table, `IsSpace`. */
module Text {

  /** The line feed: the one character `.` in a pattern does not match. */
  const LineFeed: char := '\n'

  /** The characters for which Python's `str.isspace()` is true. */
  predicate IsSpace(c: char) {
    || c == ' '
    || ('\t' <= c <= '\r')
    || ('\U{1C}' <= c <= '\U{1F}')
    || c == '\U{85}' || c == '\U{A0}' || c == '\U{1680}'
    || ('\U{2000}' <= c <= '\U{200A}')
    || c == '\U{2028}' || c == '\U{2029}' || c == '\U{202F}' || c == '\U{205F}' || c == '\U{3000}'
  }

  predicate NoSpace(s: string) {
    forall i :: 0 <= i < |s| ==> !IsSpace(s[i])
  }

  predicate AllSpace(s: string) {
    forall i :: 0 <= i < |s| ==> IsSpace(s[i])
  }

  /** A word as `str.split()` produces it: non-empty and free of whitespace. */
  predicate IsWord(w: string) {
    |w| > 0 && NoSpace(w)
  }

  predicate AllWords(ws: seq<string>) {
    forall i :: 0 <= i < |ws| ==> IsWord(ws[i])
  }

  /** The length of the leading whitespace: where `str.lstrip()` and
      `str.strip()` start their slices. */
  function StripFrom(s: string): (a: nat)
    ensures a <= |s|
    ensures forall i :: 0 <= i < a ==> IsSpace(s[i])
    ensures a == |s| || !IsSpace(s[a])
  {
    SkipSpace(s, 0)
  }

  /** Where the whitespace that ends `s[from..end]` begins. */
  function TrailFrom(s: string, from: nat, end: nat): (b: nat)
    requires from <= end <= |s|
    ensures from <= b <= end
    ensures forall i :: b <= i < end ==> IsSpace(s[i])
    ensures b == from || !IsSpace(s[b - 1])
    decreases end
  {
    if end == from || !IsSpace(s[end - 1]) then end else TrailFrom(s, from, end - 1)
  }

  /** `str.lstrip()`: drop the leading whitespace. */
  function TrimStart(s: string): (r: string)
    ensures |r| <= |s| && r == s[|s| - |r|..]
    ensures forall i :: 0 <= i < |s| - |r| ==> IsSpace(s[i])
    ensures |r| == 0 || !IsSpace(r[0])
  {
    s[StripFrom(s)..]
  }

  /** `str.rstrip()`: drop the trailing whitespace. */
  function TrimEnd(s: string): (r: string)
    ensures |r| <= |s| && r == s[..|r|]
    ensures forall i :: |r| <= i < |s| ==> IsSpace(s[i])
    ensures |r| == 0 || !IsSpace(r[|r| - 1])
  {
    s[..TrailFrom(s, 0, |s|)]
  }

  /** `str.strip()`: the slice of `s` left after dropping whitespace at both
      ends. The leading whitespace is `s[..StripFrom(s)]`. */
  function Strip(s: string): (r: string)
    ensures StripFrom(s) + |r| <= |s| && r == s[StripFrom(s)..StripFrom(s) + |r|]
    ensures forall i :: StripFrom(s) + |r| <= i < |s| ==> IsSpace(s[i])
    ensures |r| == 0 || (!IsSpace(r[0]) && !IsSpace(r[|r| - 1]))
  {
    var a := StripFrom(s);
    s[a..TrailFrom(s, a, |s|)]
  }

  /** Length of the leading run of non-whitespace characters. */
  function SpanWord(s: string): (n: nat)
    ensures n <= |s| && NoSpace(s[..n])
    ensures n == |s| || IsSpace(s[n])
    decreases |s|
  {
    if |s| == 0 || IsSpace(s[0]) then 0
    else
      var m := SpanWord(s[1..]);
      assert s[..1 + m] == [s[0]] + s[1..][..m];
      1 + m
  }

  /** `str.split()` with no separator: the maximal runs of non-whitespace characters. */
  function Words(s: string): (ws: seq<string>)
    ensures AllWords(ws)
    decreases |s|
  {
    if |s| == 0 then []
    else if IsSpace(s[0]) then Words(s[1..])
    else
      var n := SpanWord(s);
      [s[..n]] + Words(s[n..])
  }

  /** `sep.join(parts)` for a one-character separator. */
  function JoinWith(parts: seq<string>, sep: char): string
  {
    if |parts| == 0 then ""
    else if |parts| == 1 then parts[0]
    else parts[0] + [sep] + JoinWith(parts[1..], sep)
  }

  /** `" ".join(ws)`. */
  function Join(ws: seq<string>): string
  {
    JoinWith(ws, ' ')
  }

  /** Index of the first occurrence of `c` in `s`. */
  function IndexOf(s: string, c: char): (i: nat)
    requires c in s
    ensures i < |s| && s[i] == c && c !in s[..i]
  {
    if s[0] == c then 0
    else
      var j := IndexOf(s[1..], c);
      assert s[..j + 1] == [s[0]] + s[1..][..j];
      j + 1
  }

  /** `s.split(sep)` for a one-character separator: the pieces between the
      separators, empty ones included. It has one more piece than `s` has
      separators, no piece holds the separator, and joining the pieces with
      the separator gives `s` back. */
  function SplitOn(s: string, sep: char): (parts: seq<string>)
    ensures |parts| == multiset(s)[sep] + 1
    ensures forall i :: 0 <= i < |parts| ==> sep !in parts[i]
    ensures JoinWith(parts, sep) == s
    decreases |s|
  {
    if sep !in s then
      assert multiset(s)[sep] == 0;
      [s]
    else
      var i := IndexOf(s, sep);
      var rest := SplitOn(s[i + 1..], sep);
      assert s == s[..i] + [sep] + s[i + 1..];
      assert multiset(s)[sep] == multiset(s[..i])[sep] + 1 + multiset(s[i + 1..])[sep];
      assert multiset(s[..i])[sep] == 0;
      var parts := [s[..i]] + rest;
      assert parts[1..] == rest;
      parts
  }

  /** `" ".join(s.split())`: the words of `s`, single-spaced. It is trimmed and
      single-spaced, keeps the words of `s`, and is empty exactly when `s` is blank. */
  function NormalizeSpace(s: string): (r: string)
    ensures IsNormal(r)
    ensures Words(r) == Words(s)
    ensures |r| == 0 <==> AllSpace(s)
  {
    var ws := Words(s);
    JoinIsNormal(ws);
    JoinWordsRoundTrip(ws);
    WordsEmptyIffBlank(s);
    JoinEmptyIff(ws);
    Join(ws)
  }

  /** Every whitespace character is a plain space, and no two whitespace
      characters are adjacent. */
  predicate SingleSpaced(s: string) {
    && (forall i :: 0 <= i < |s| && IsSpace(s[i]) ==> s[i] == ' ')
    && (forall i, j :: 0 <= i < |s| && 0 <= j < |s| && j == i + 1 ==> !IsSpace(s[i]) || !IsSpace(s[j]))
  }

  /** Trimmed and single-spaced: the form `normalize_space` produces. */
  predicate IsNormal(s: string) {
    && (|s| == 0 || (!IsSpace(s[0]) && !IsSpace(s[|s| - 1])))
    && SingleSpaced(s)
  }

  lemma {:induction false} WordsEmptyIffBlank(s: string)
    ensures Words(s) == [] <==> AllSpace(s)
    decreases |s|
  {
    if |s| > 0 && IsSpace(s[0]) {
      WordsEmptyIffBlank(s[1..]);
      assert AllSpace(s[1..]) <==> AllSpace(s) by {
        if AllSpace(s[1..]) {
          forall i | 0 <= i < |s| ensures IsSpace(s[i]) {
            if i > 0 { assert s[i] == s[1..][i - 1]; }
          }
        }
      }
    }
  }

  /** Stripping leaves nothing exactly when the string is blank. */
  lemma StripEmptyIffBlank(s: string)
    ensures Strip(s) == [] <==> AllSpace(s)
  {
    var a := StripFrom(s);
    if a < |s| {
      assert Strip(s)[0] == s[a];
    }
  }

  lemma JoinEmptyIff(ws: seq<string>)
    requires AllWords(ws)
    ensures |Join(ws)| == 0 <==> |ws| == 0
  {
    if |ws| > 0 {
      JoinEnds(ws);
    }
  }

  /** A single-spaced join of words starts with the first word's first
      character and ends with a non-whitespace character. */
  lemma {:induction false} JoinEnds(ws: seq<string>)
    requires |ws| > 0 && AllWords(ws)
    ensures |Join(ws)| >= |ws[0]| && Join(ws)[..|ws[0]|] == ws[0]
    ensures !IsSpace(Join(ws)[0]) && !IsSpace(Join(ws)[|Join(ws)| - 1])
  {
    assert IsWord(ws[0]);
    if |ws| > 1 {
      assert AllWords(ws[1..]) by { forall i | 0 <= i < |ws| - 1 ensures IsWord(ws[1..][i]) { assert ws[1..][i] == ws[i + 1]; } }
      JoinEnds(ws[1..]);
      var j := Join(ws[1..]);
      assert Join(ws) == ws[0] + " " + j;
      assert Join(ws)[|Join(ws)| - 1] == j[|j| - 1];
    }
  }

  /** The leading word of `w + rest` is `w` when `rest` is empty or starts with whitespace. */
  lemma {:induction false} SpanWordOfWord(w: string, rest: string)
    requires IsWord(w)
    requires |rest| == 0 || IsSpace(rest[0])
    ensures SpanWord(w + rest) == |w|
    decreases |w|
  {
    var s := w + rest;
    if |w| > 1 {
      assert s[1..] == w[1..] + rest;
      SpanWordOfWord(w[1..], rest);
    } else {
      assert s[1..] == rest;
    }
  }

  /** `split()` undoes `" ".join` on words: `(" ".join(ws)).split() == ws`. */
  lemma {:induction false} JoinWordsRoundTrip(ws: seq<string>)
    requires AllWords(ws)
    ensures Words(Join(ws)) == ws
    decreases |ws|
  {
    if |ws| == 1 {
      var w := ws[0];
      assert IsWord(w);
      SpanWordOfWord(w, "");
      assert w + "" == w;
      assert w[|w|..] == "";
    } else if |ws| > 1 {
      var w := ws[0];
      var j := Join(ws[1..]);
      var s := w + " " + j;
      assert IsWord(w);
      assert AllWords(ws[1..]) by { forall i | 0 <= i < |ws| - 1 ensures IsWord(ws[1..][i]) { assert ws[1..][i] == ws[i + 1]; } }
      assert s == w + (" " + j);
      SpanWordOfWord(w, " " + j);
      assert s[..|w|] == w;
      assert s[|w|..] == " " + j;
      assert (" " + j)[1..] == j;
      JoinWordsRoundTrip(ws[1..]);
      assert Words(s) == [w] + ws[1..];
    }
  }

  /** A single-spaced join of words is trimmed and single-spaced. */
  lemma {:induction false} JoinIsNormal(ws: seq<string>)
    requires AllWords(ws)
    ensures IsNormal(Join(ws))
    decreases |ws|
  {
    if |ws| == 1 {
      assert IsWord(ws[0]);
    } else if |ws| > 1 {
      var w := ws[0];
      var j := Join(ws[1..]);
      var s := w + " " + j;
      assert IsWord(w);
      assert AllWords(ws[1..]) by { forall i | 0 <= i < |ws| - 1 ensures IsWord(ws[1..][i]) { assert ws[1..][i] == ws[i + 1]; } }
      JoinIsNormal(ws[1..]);
      JoinEnds(ws[1..]);
      forall i | 0 <= i < |s| && IsSpace(s[i]) ensures s[i] == ' ' {
        if i > |w| {
          assert s[i] == j[i - |w| - 1];
        }
      }
      forall i, k | 0 <= i < |s| && 0 <= k < |s| && k == i + 1 ensures !IsSpace(s[i]) || !IsSpace(s[k]) {
        if i < |w| {
          assert s[i] == w[i];
        } else if i > |w| {
          assert s[i] == j[i - |w| - 1];
          assert s[k] == j[k - |w| - 1];
        } else {
          assert s[k] == j[0];
        }
      }
      assert s[0] == w[0];
      assert s[|s| - 1] == j[|j| - 1];
    }
  }

  /** A trimmed, single-spaced string is its own normalisation. */
  lemma {:induction false} NormalIsFixpoint(s: string)
    requires IsNormal(s)
    ensures Join(Words(s)) == s
    decreases |s|
  {
    if |s| > 0 {
      assert !IsSpace(s[0]);
      var n := SpanWord(s);
      if n == |s| {
        assert s[..n] == s;
        assert s[n..] == "";
      } else {
        assert s[n] == ' ' && n + 1 < |s|;
        assert !IsSpace(s[n]) || !IsSpace(s[n + 1]);
        var t := s[n + 1..];
        assert s[n..][1..] == t;
        assert Words(s[n..]) == Words(t);
        SingleSpacedSuffix(s, n + 1);
        assert IsNormal(t);
        NormalIsFixpoint(t);
        WordsEmptyIffBlank(t);
        assert t[0] == s[n + 1];
        var ws := Words(t);
        assert Words(s) == [s[..n]] + ws;
        assert ([s[..n]] + ws)[1..] == ws;
        assert s == s[..n] + " " + t;
      }
    }
  }

  /** A trimmed, single-spaced string is unchanged by `strip()`. */
  lemma NormalIsStripped(s: string)
    requires IsNormal(s)
    ensures Strip(s) == s
  {
    if |s| > 0 {
      assert !IsSpace(s[0]) && !IsSpace(s[|s| - 1]);
    }
  }

  /** `re.sub(r"\s+", " ", s)`: every maximal run of whitespace becomes one
      plain space. The words are unchanged and a leading run stays a (single)
      space. */
  function CollapseSpace(s: string): (r: string)
    ensures Words(r) == Words(s)
    ensures SingleSpaced(r)
    ensures |r| == 0 <==> |s| == 0
    ensures |s| > 0 ==> (IsSpace(r[0]) <==> IsSpace(s[0]))
    decreases |s|
  {
    if |s| == 0 then ""
    else if IsSpace(s[0]) then
      var t := TrimStart(s);
      var rest := CollapseSpace(t);
      WordsTrimStart(s);
      assert (" " + rest)[1..] == rest;
      SingleSpacedCons(' ', rest);
      " " + rest
    else
      var rest := CollapseSpace(s[1..]);
      WordsCons(s[0], rest);
      WordsCons(s[0], s[1..]);
      assert [s[0]] + s[1..] == s;
      SingleSpacedCons(s[0], rest);
      [s[0]] + rest
  }

  /** Leading whitespace does not change the words. */
  lemma WordsTrimStart(s: string)
    ensures Words(TrimStart(s)) == Words(s)
  {
    WordsSkipSpace(s, StripFrom(s));
  }

  /** The words of `[c] + y` for a non-whitespace `c`: `c` joins the first word
      of `y` when `y` starts with a non-whitespace character. */
  lemma WordsCons(c: char, y: string)
    requires !IsSpace(c)
    ensures Words([c] + y) ==
      if |y| > 0 && !IsSpace(y[0]) then [[c] + Words(y)[0]] + Words(y)[1..]
      else [[c]] + Words(y)
  {
    if |y| > 0 && !IsSpace(y[0]) {
      WordsConsJoin(c, y);
    } else {
      WordsConsAlone(c, y);
    }
  }

  lemma WordsConsJoin(c: char, y: string)
    requires !IsSpace(c) && |y| > 0 && !IsSpace(y[0])
    ensures Words([c] + y) == [[c] + y[..SpanWord(y)]] + Words(y[SpanWord(y)..])
    ensures Words(y) == [y[..SpanWord(y)]] + Words(y[SpanWord(y)..])
  {
    var s := [c] + y;
    assert s[0] == c && s[1..] == y;
    var m := SpanWord(y);
    assert SpanWord(s) == 1 + m;
    assert s[..1 + m] == [c] + y[..m];
    assert s[1 + m..] == y[m..];
  }

  lemma WordsConsAlone(c: char, y: string)
    requires !IsSpace(c) && (|y| == 0 || IsSpace(y[0]))
    ensures Words([c] + y) == [[c]] + Words(y)
  {
    var s := [c] + y;
    assert s[0] == c && s[1..] == y;
    assert SpanWord(y) == 0;
    assert SpanWord(s) == 1;
    assert s[..1] == [c];
  }

  /** Trailing whitespace does not change the words. */
  lemma {:induction false} WordsAppendSpace(y: string, sp: string)
    requires AllSpace(sp)
    ensures Words(y + sp) == Words(y)
    decreases |y|
  {
    var s := y + sp;
    if |y| == 0 {
      assert s == sp;
      WordsEmptyIffBlank(sp);
    } else if IsSpace(y[0]) {
      assert s[1..] == y[1..] + sp;
      WordsAppendSpace(y[1..], sp);
    } else {
      SpanWordAppendSpace(y, sp);
      var n := SpanWord(y);
      assert s[..n] == y[..n];
      assert s[n..] == y[n..] + sp;
      WordsAppendSpace(y[n..], sp);
    }
  }

  lemma {:induction false} SpanWordAppendSpace(y: string, sp: string)
    requires AllSpace(sp)
    ensures SpanWord(y + sp) == SpanWord(y)
    decreases |y|
  {
    var s := y + sp;
    if |y| == 0 {
      assert s == sp;
    } else if !IsSpace(y[0]) {
      assert s[1..] == y[1..] + sp;
      SpanWordAppendSpace(y[1..], sp);
    }
  }

  /** `strip()` does not change the words. */
  lemma WordsStrip(s: string)
    ensures Words(Strip(s)) == Words(s)
  {
    var a := StripFrom(s);
    var r := Strip(s);
    var b := a + |r|;
    var sp := s[b..];
    assert s[a..] == r + sp by { SliceJoin(s, a, b); }
    assert Words(s[a..]) == Words(s) by { WordsSkipSpace(s, a); }
    assert Words(r + sp) == Words(r) by {
      SuffixAllSpace(s, b);
      WordsAppendSpace(r, sp);
    }
  }

  lemma SliceJoin(s: string, a: nat, b: nat)
    requires a <= b <= |s|
    ensures s[a..] == s[a..b] + s[b..]
  {
  }

  lemma SuffixAllSpace(s: string, b: nat)
    requires b <= |s| && forall i :: b <= i < |s| ==> IsSpace(s[i])
    ensures AllSpace(s[b..])
  {
    forall k | 0 <= k < |s| - b ensures IsSpace(s[b..][k]) {
      assert s[b..][k] == s[b + k];
    }
  }

  /** `re.sub(r"\s+", " ", s).strip()` is `" ".join(s.split())`. */
  lemma CollapseThenStrip(s: string)
    ensures Strip(CollapseSpace(s)) == NormalizeSpace(s)
  {
    var c := CollapseSpace(s);
    var a := StripFrom(c);
    var r := Strip(c);
    WordsStrip(c);
    SingleSpacedSuffix(c, a);
    assert r == c[a..][..|r|];
    SingleSpacedPrefix(c[a..], |r|);
    NormalIsFixpoint(r);
  }

  lemma SingleSpacedSuffix(s: string, a: nat)
    requires SingleSpaced(s) && a <= |s|
    ensures SingleSpaced(s[a..])
  {
    var t := s[a..];
    forall i | 0 <= i < |t| && IsSpace(t[i]) ensures t[i] == ' ' {
      assert t[i] == s[a + i];
    }
    forall i, j | 0 <= i < |t| && 0 <= j < |t| && j == i + 1 ensures !IsSpace(t[i]) || !IsSpace(t[j]) {
      assert t[i] == s[a + i] && t[j] == s[a + j];
    }
  }

  lemma SingleSpacedPrefix(s: string, b: nat)
    requires SingleSpaced(s) && b <= |s|
    ensures SingleSpaced(s[..b])
  {
    var t := s[..b];
    forall i | 0 <= i < |t| && IsSpace(t[i]) ensures t[i] == ' ' {
      assert t[i] == s[i];
    }
    forall i, j | 0 <= i < |t| && 0 <= j < |t| && j == i + 1 ensures !IsSpace(t[i]) || !IsSpace(t[j]) {
      assert t[i] == s[i] && t[j] == s[j];
    }
  }

  /** Putting a non-whitespace character, or a plain space before a
      non-whitespace character, in front keeps a string single-spaced. */
  lemma SingleSpacedCons(c: char, y: string)
    requires SingleSpaced(y)
    requires IsSpace(c) ==> c == ' ' && (|y| == 0 || !IsSpace(y[0]))
    ensures SingleSpaced([c] + y)
  {
    var s := [c] + y;
    forall i | 0 <= i < |s| && IsSpace(s[i]) ensures s[i] == ' ' {
      if i > 0 { assert s[i] == y[i - 1]; }
    }
    forall i, j | 0 <= i < |s| && 0 <= j < |s| && j == i + 1 ensures !IsSpace(s[i]) || !IsSpace(s[j]) {
      assert s[j] == y[j - 1];
      if i > 0 { assert s[i] == y[i - 1]; }
    }
  }

  /** The last piece of a join comes after the last separator. */
  lemma {:induction false} JoinWithLast(parts: seq<string>, sep: char)
    requires |parts| >= 2
    ensures JoinWith(parts, sep) == JoinWith(parts[..|parts| - 1], sep) + [sep] + parts[|parts| - 1]
    decreases |parts|
  {
    if |parts| > 2 {
      JoinWithLast(parts[1..], sep);
      assert parts[1..][..|parts| - 2] == parts[..|parts| - 1][1..];
    }
  }

  /** A word ends where the text ends or at the first whitespace, whatever follows. */
  lemma {:induction false} SpanWordAppend(a: string, r: string)
    requires |r| == 0 || IsSpace(r[0])
    ensures SpanWord(a + r) == SpanWord(a)
    decreases |a|
  {
    var s := a + r;
    if |a| == 0 {
      assert s == r;
    } else if !IsSpace(a[0]) {
      assert s[1..] == a[1..] + r;
      SpanWordAppend(a[1..], r);
    }
  }

  /** The words of every part, one after the other. */
  function WordsOfAll(parts: seq<string>): (ws: seq<string>)
    ensures AllWords(ws)
  {
    if |parts| == 0 then [] else Words(parts[0]) + WordsOfAll(parts[1..])
  }

  /** A space between two texts separates their words. */
  lemma {:induction false} WordsJoinSpace(a: string, b: string)
    ensures Words(a + " " + b) == Words(a) + Words(b)
    decreases |a|
  {
    var s := a + " " + b;
    if |a| == 0 {
      assert s == " " + b;
      assert s[1..] == b;
    } else if IsSpace(a[0]) {
      assert s[1..] == a[1..] + " " + b;
      WordsJoinSpace(a[1..], b);
    } else {
      var n := SpanWord(a);
      assert s[0] == a[0] && SpanWord(s) == n by {
        assert a + (" " + b) == s;
        SpanWordAppend(a, " " + b);
      }
      assert s[..n] == a[..n] && s[n..] == a[n..] + " " + b;
      assert Words(s) == [a[..n]] + Words(a[n..] + " " + b);
      WordsJoinSpace(a[n..], b);
    }
  }

  /** `" ".join(parts).split()` is the words of the parts, one after the other. */
  lemma {:induction false} WordsOfJoin(parts: seq<string>)
    ensures Words(Join(parts)) == WordsOfAll(parts)
    decreases |parts|
  {
    if |parts| == 1 {
      assert parts[1..] == [];
    } else if |parts| > 1 {
      WordsOfJoin(parts[1..]);
      WordsJoinSpace(parts[0], Join(parts[1..]));
      assert Join(parts) == parts[0] + " " + Join(parts[1..]);
    }
  }

  /** Index of the first whitespace character at or after `from`, or the end. */
  function NextSpace(s: string, from: nat): (i: nat)
    requires from <= |s|
    ensures from <= i <= |s|
    ensures forall k :: from <= k < i ==> !IsSpace(s[k])
    ensures i == |s| || IsSpace(s[i])
    decreases |s| - from
  {
    if from == |s| || IsSpace(s[from]) then from else NextSpace(s, from + 1)
  }

  /** Index of the first non-whitespace character at or after `from`, or the end. */
  function SkipSpace(s: string, from: nat): (j: nat)
    requires from <= |s|
    ensures from <= j <= |s|
    ensures forall k :: from <= k < j ==> IsSpace(s[k])
    ensures j == |s| || !IsSpace(s[j])
    decreases |s| - from
  {
    if from == |s| || !IsSpace(s[from]) then from else SkipSpace(s, from + 1)
  }

  /** `re.split(r"\s+", s)`: the pieces between maximal runs of whitespace.
      No piece holds whitespace, and only the first and the last can be empty. */
  function SplitRuns(s: string): (parts: seq<string>)
    ensures |parts| > 0
    ensures forall k :: 0 <= k < |parts| ==> NoSpace(parts[k])
    ensures forall k :: 0 < k < |parts| - 1 ==> |parts[k]| > 0
    ensures |s| > 0 && !IsSpace(s[0]) ==> |parts[0]| > 0
    ensures |s| > 0 && !IsSpace(s[|s| - 1]) ==> |parts[|parts| - 1]| > 0
    decreases |s|
  {
    var i := NextSpace(s, 0);
    if i == |s| then [s]
    else
      var j := SkipSpace(s, i);
      [s[..i]] + SplitRuns(s[j..])
  }

  /** The pieces of `xs` that are not empty, in order. */
  function NonEmpty(xs: seq<string>): (r: seq<string>)
    ensures |r| <= |xs|
  {
    if |xs| == 0 then []
    else (if |xs[0]| > 0 then [xs[0]] else []) + NonEmpty(xs[1..])
  }

  /** Dropping the empty pieces of `re.split(r"\s+", s)` gives `s.split()`. */
  lemma {:induction false} SplitRunsWords(s: string)
    ensures NonEmpty(SplitRuns(s)) == Words(s)
    decreases |s|
  {
    var i := NextSpace(s, 0);
    if i == |s| {
      NextSpaceIsSpanWord(s);
      assert s[..i] == s;
      if |s| > 0 {
        WordAlone(s);
      }
    } else {
      var j := SkipSpace(s, i);
      var rest := SplitRuns(s[j..]);
      assert SplitRuns(s) == [s[..i]] + rest;
      NonEmptyCons(s[..i], rest);
      SplitRunsWords(s[j..]);
      WordsBeforeRun(s, i, j);
    }
  }

  lemma NonEmptyCons(x: string, rest: seq<string>)
    ensures NonEmpty([x] + rest) == (if |x| > 0 then [x] else []) + NonEmpty(rest)
  {
    assert ([x] + rest)[1..] == rest;
  }

  /** The words of a text whose first whitespace run is `s[i..j]`. */
  lemma WordsBeforeRun(s: string, i: nat, j: nat)
    requires i == NextSpace(s, 0) < |s| && j == SkipSpace(s, i)
    ensures Words(s) == (if i > 0 then [s[..i]] else []) + Words(s[j..])
  {
    if i == 0 {
      WordsSkipSpace(s, j);
    } else {
      NextSpaceIsSpanWord(s);
      assert Words(s) == [s[..i]] + Words(s[i..]);
      SkipRun(s, i, j);
    }
  }

  lemma SkipRun(s: string, i: nat, j: nat)
    requires i <= j <= |s| && forall k :: i <= k < j ==> IsSpace(s[k])
    ensures Words(s[i..]) == Words(s[j..])
  {
    var t := s[i..];
    forall k | 0 <= k < j - i ensures IsSpace(t[k]) { assert t[k] == s[i + k]; }
    WordsSkipSpace(t, j - i);
    assert t[j - i..] == s[j..];
  }

  /** Leading whitespace does not change the words. */
  lemma {:induction false} WordsSkipSpace(s: string, m: nat)
    requires m <= |s| && forall k :: 0 <= k < m ==> IsSpace(s[k])
    ensures Words(s[m..]) == Words(s)
    decreases m
  {
    if m > 0 {
      var t := s[1..];
      forall k | 0 <= k < m - 1 ensures IsSpace(t[k]) { assert t[k] == s[k + 1]; }
      WordsSkipSpace(t, m - 1);
      assert t[m - 1..] == s[m..];
    }
  }

  /** The first piece of the split on runs is the first word. */
  lemma NextSpaceIsSpanWord(s: string)
    ensures NextSpace(s, 0) == SpanWord(s)
  {
    var i := NextSpace(s, 0);
    var n := SpanWord(s);
    forall k | 0 <= k < n ensures !IsSpace(s[k]) { assert s[k] == s[..n][k]; }
  }

  /** On text that starts and ends with a non-whitespace character, splitting
      at whitespace runs gives the words. */
  lemma SplitRunsOfStripped(s: string)
    requires |s| > 0 && !IsSpace(s[0]) && !IsSpace(s[|s| - 1])
    ensures SplitRuns(s) == Words(s)
  {
    var parts := SplitRuns(s);
    forall k | 0 <= k < |parts| ensures |parts[k]| > 0 {
      if k == 0 {
        assert |parts[0]| > 0;
      } else if k == |parts| - 1 {
        assert |parts[|parts| - 1]| > 0;
      }
    }
    NonEmptyOfFull(parts);
    SplitRunsWords(s);
  }

  lemma {:induction false} NonEmptyOfFull(xs: seq<string>)
    requires forall k :: 0 <= k < |xs| ==> |xs[k]| > 0
    ensures NonEmpty(xs) == xs
    decreases |xs|
  {
    if |xs| > 0 {
      NonEmptyOfFull(xs[1..]);
    }
  }

  /** A single word splits into itself and is its own normal form. */
  lemma WordAlone(w: string)
    requires IsWord(w)
    ensures Words(w) == [w]
    ensures NormalizeSpace(w) == w
  {
    JoinWordsRoundTrip([w]);
    assert Join([w]) == w;
  }

  lemma NoSpaceConcat(a: string, b: string)
    ensures NoSpace(a + b) <==> NoSpace(a) && NoSpace(b)
  {
    if NoSpace(a + b) {
      forall i | 0 <= i < |a| ensures !IsSpace(a[i]) { assert a[i] == (a + b)[i]; }
      forall i | 0 <= i < |b| ensures !IsSpace(b[i]) { assert b[i] == (a + b)[|a| + i]; }
    }
  }

  /** Two fields without the separator split back apart. */
  lemma SplitOnTwo(a: string, b: string, sep: char)
    requires sep !in a && sep !in b
    ensures SplitOn(a + [sep] + b, sep) == [a, b]
  {
    var s := a + [sep] + b;
    var i := IndexOf(s, sep);
    forall j | 0 <= j < |a| ensures s[j] != sep { assert s[j] == a[j]; }
    assert i == |a|;
    assert s[..i] == a;
    assert s[i + 1..] == b;
  }

  /** A text without whitespace at its ends is its own `strip()`. */
  lemma StripOfTrimmed(s: string)
    requires |s| == 0 || (!IsSpace(s[0]) && !IsSpace(s[|s| - 1]))
    ensures Strip(s) == s
  {
    if |s| > 0 {
      assert StripFrom(s) == 0;
      assert TrailFrom(s, 0, |s|) == |s|;
    }
  }

  // ---------------------------------------------------------------------
  // Characters kept through whitespace normalisation

  lemma SplitAt(s: string, i: nat)
    requires i <= |s|
    ensures s[..i] + s[i..] == s
  {
  }

  lemma Subslices(s: string, i: nat, n: nat)
    requires i + n <= |s|
    ensures s[i..][..n] == s[i..i + n] && s[i..][n..] == s[i + n..]
  {
  }

  lemma AppendEmpty(s: string)
    ensures "" + s == s && s + "" == s
  {
  }

  lemma HeadTail(s: string)
    requires |s| > 0
    ensures [s[0]] + s[1..] == s
  {
  }

  /** The characters of `s` that satisfy `keep`, in order. */
  function Filter(s: string, keep: char -> bool): (r: string)
    ensures |r| <= |s|
    decreases |s|
  {
    if |s| == 0 then "" else (if keep(s[0]) then [s[0]] else "") + Filter(s[1..], keep)
  }

  lemma FilterCons(c: char, x: string, keep: char -> bool)
    ensures Filter([c] + x, keep) == (if keep(c) then [c] else "") + Filter(x, keep)
  {
    assert ([c] + x)[1..] == x;
  }

  lemma {:induction false} FilterConcat(a: string, b: string, keep: char -> bool)
    ensures Filter(a + b, keep) == Filter(a, keep) + Filter(b, keep)
    decreases |a|
  {
    if |a| > 0 {
      assert a + b == [a[0]] + (a[1..] + b);
      FilterCons(a[0], a[1..] + b, keep);
      FilterConcat(a[1..], b, keep);
    } else {
      assert a + b == b;
    }
  }

  lemma FilterSplit(s: string, i: nat, keep: char -> bool)
    requires i <= |s|
    ensures Filter(s, keep) == Filter(s[..i], keep) + Filter(s[i..], keep)
  {
    SplitAt(s, i);
    FilterConcat(s[..i], s[i..], keep);
  }

  lemma FilterSlices(s: string, a: nat, b: nat, keep: char -> bool)
    requires a <= b <= |s|
    ensures Filter(s[a..], keep) == Filter(s[a..b], keep) + Filter(s[b..], keep)
  {
    var x := s[a..];
    assert x[..b - a] == s[a..b];
    assert x[b - a..] == s[b..];
    FilterSplit(x, b - a, keep);
  }

  /** `keep` keeps no whitespace character. */
  predicate RejectsSpace(keep: char -> bool) {
    forall c :: IsSpace(c) ==> !keep(c)
  }

  predicate NotSpace(c: char) {
    !IsSpace(c)
  }

  /** The non-whitespace characters of `s`, in order. */
  function NonSpace(s: string): string {
    Filter(s, NotSpace)
  }

  lemma {:induction false} NonSpaceOfSpace(s: string)
    requires AllSpace(s)
    ensures NonSpace(s) == ""
    decreases |s|
  {
    if |s| > 0 {
      assert AllSpace(s[1..]) by {
        forall i | 0 <= i < |s| - 1 ensures IsSpace(s[1..][i]) { assert s[1..][i] == s[i + 1]; }
      }
      NonSpaceOfSpace(s[1..]);
    }
  }

  /** A filter that rejects whitespace sees only the non-whitespace characters. */
  lemma {:induction false} FilterOfNonSpace(s: string, keep: char -> bool)
    requires RejectsSpace(keep)
    ensures Filter(NonSpace(s), keep) == Filter(s, keep)
    decreases |s|
  {
    if |s| > 0 {
      FilterOfNonSpace(s[1..], keep);
      var head := if NotSpace(s[0]) then [s[0]] else "";
      FilterConcat(head, NonSpace(s[1..]), keep);
    }
  }

  /** Leading whitespace holds no non-whitespace character. */
  lemma NonSpaceTrimStart(s: string)
    ensures NonSpace(s) == NonSpace(TrimStart(s))
  {
    var t := TrimStart(s);
    var lead := s[..|s| - |t|];
    SplitAt(s, |s| - |t|);
    FilterConcat(lead, t, NotSpace);
    assert AllSpace(lead) by {
      forall i | 0 <= i < |lead| ensures IsSpace(lead[i]) { assert lead[i] == s[i]; }
    }
    NonSpaceOfSpace(lead);
  }

  /** Collapsing whitespace keeps every non-whitespace character, in order. */
  lemma {:induction false} CollapseKeepsNonSpace(s: string)
    ensures NonSpace(CollapseSpace(s)) == NonSpace(s)
    decreases |s|
  {
    if |s| > 0 {
      if IsSpace(s[0]) {
        var t := TrimStart(s);
        CollapseKeepsNonSpace(t);
        assert CollapseSpace(s) == " " + CollapseSpace(t);
        FilterCons(' ', CollapseSpace(t), NotSpace);
        NonSpaceTrimStart(s);
      } else {
        CollapseKeepsNonSpace(s[1..]);
        assert CollapseSpace(s) == [s[0]] + CollapseSpace(s[1..]);
        FilterCons(s[0], CollapseSpace(s[1..]), NotSpace);
        FilterCons(s[0], s[1..], NotSpace);
        HeadTail(s);
      }
    }
  }

  /** Trailing whitespace holds no non-whitespace character. */
  lemma NonSpaceTrailing(u: string, b: nat)
    requires b <= |u|
    requires forall k :: b <= k < |u| ==> IsSpace(u[k])
    ensures NonSpace(u[..b]) == NonSpace(u)
  {
    SplitAt(u, b);
    FilterConcat(u[..b], u[b..], NotSpace);
    assert AllSpace(u[b..]) by {
      forall k | 0 <= k < |u| - b ensures IsSpace(u[b..][k]) { assert u[b..][k] == u[b + k]; }
    }
    NonSpaceOfSpace(u[b..]);
  }

  /** Stripping keeps every non-whitespace character, in order. */
  lemma StripKeepsNonSpace(s: string)
    ensures NonSpace(Strip(s)) == NonSpace(s)
  {
    var a := StripFrom(s);
    var r := Strip(s);
    var u := s[a..];
    assert u == TrimStart(s);
    NonSpaceTrimStart(s);
    assert r == u[..|r|];
    forall k | |r| <= k < |u| ensures IsSpace(u[k]) { assert u[k] == s[a + k]; }
    NonSpaceTrailing(u, |r|);
  }

  /** Collapsing whitespace keeps every character a whitespace-rejecting filter keeps. */
  lemma CollapseKeepsFilter(s: string, keep: char -> bool)
    requires RejectsSpace(keep)
    ensures Filter(CollapseSpace(s), keep) == Filter(s, keep)
  {
    CollapseKeepsNonSpace(s);
    FilterOfNonSpace(s, keep);
    FilterOfNonSpace(CollapseSpace(s), keep);
  }

  /** Stripping keeps every character a whitespace-rejecting filter keeps. */
  lemma StripKeepsFilter(s: string, keep: char -> bool)
    requires RejectsSpace(keep)
    ensures Filter(Strip(s), keep) == Filter(s, keep)
  {
    StripKeepsNonSpace(s);
    FilterOfNonSpace(s, keep);
    FilterOfNonSpace(Strip(s), keep);
  }

  /** Collapsing and then stripping keeps every character a
      whitespace-rejecting filter keeps. */
  lemma NormalizeKeepsFilter(s: string, keep: char -> bool)
    requires RejectsSpace(keep)
    ensures Filter(Strip(CollapseSpace(s)), keep) == Filter(s, keep)
  {
    CollapseKeepsFilter(s, keep);
    StripKeepsFilter(CollapseSpace(s), keep);
  }
}
