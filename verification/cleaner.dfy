/** The string cleaners of the converter: `clean_phrase` (after HTML entities
    have been decoded), `wiki_to_text` and `extract_words`. Each regular
    expression they use is written out as a scanner for that one pattern. */
module Cleaner {
  import opened Text
  import opened Options
  import Brackets

  predicate StartsWith(s: string, p: string) {
    |p| <= |s| && s[..|p|] == p
  }

  lemma StartsWithHead(s: string, p: string)
    ensures StartsWith(s, p) && |p| > 0 ==> s[0] == p[0]
  {
    if StartsWith(s, p) && |p| > 0 {
      assert s[..|p|][0] == s[0];
    }
  }

  /** The lazy group `(.*?)` followed by `close`, tried from index `from`: the
      first index at which `close` occurs, provided no line feed comes before
      it (`.` does not match a line feed). `LazyUntilFinds` states which index. */
  function LazyUntil(s: string, from: nat, close: string): (r: Option<nat>)
    requires from <= |s|
    ensures r.Some? ==> from <= r.value && r.value + |close| <= |s| && StartsWith(s[r.value..], close)
    decreases |s| - from
  {
    if StartsWith(s[from..], close) then Some(from)
    else if from < |s| && s[from] != LineFeed then LazyUntil(s, from + 1, close)
    else None
  }

  /** The lazy group finds the first occurrence of the closing delimiter, and
      none exists before the first line feed when it finds nothing. */
  lemma {:induction false} LazyUntilFinds(s: string, from: nat, close: string)
    requires from <= |s|
    ensures var r := LazyUntil(s, from, close);
      && (r.Some? ==> LineFeed !in s[from..r.value])
      && (r.Some? ==> forall k :: from <= k < r.value ==> !StartsWith(s[k..], close))
      && (r.None? ==> forall k :: from <= k <= |s| && LineFeed !in s[from..k] ==> !StartsWith(s[k..], close))
    decreases |s| - from
  {
    if !StartsWith(s[from..], close) {
      if from < |s| && s[from] != LineFeed {
        LazyUntilFinds(s, from + 1, close);
        assert forall k :: from + 1 <= k <= |s| ==> s[from..k] == [s[from]] + s[from + 1..k];
      } else {
        assert forall k :: from < k <= |s| ==> s[from..k][0] == s[from];
      }
    }
  }

  /** `re.sub(open + "(.*?)" + close, r"\1", s)`: the leftmost match is
      replaced by the text between the delimiters and the scan resumes after it. */
  function SubLazy(s: string, open: string, close: string): string
    requires |open| > 0
    decreases |s|
  {
    if |s| == 0 then ""
    else if StartsWith(s, open) && LazyUntil(s, |open|, close).Some? then
      var q := LazyUntil(s, |open|, close).value;
      s[|open|..q] + SubLazy(s[q + |close|..], open, close)
    else [s[0]] + SubLazy(s[1..], open, close)
  }

  /** `s.replace("/", " / ")`: every slash gets a space on each side. */
  function PadSlashes(s: string): (r: string)
    ensures |r| == |s| + 2 * multiset(s)['/']
    ensures SlashesApart(r)
    ensures |r| > 0 ==> r[0] != '/'
    decreases |s|
  {
    if |s| == 0 then ""
    else
      var rest := PadSlashes(s[1..]);
      assert s == [s[0]] + s[1..];
      var head := if s[0] == '/' then " / " else [s[0]];
      ApartAfter(head, rest);
      head + rest
  }

  /** Prefixing a padded slash, or any other character, keeps slashes apart
      from their neighbours when the rest does not start with a slash. */
  lemma ApartAfter(head: string, rest: string)
    requires head == " / " || (|head| == 1 && head[0] != '/')
    requires SlashesApart(rest) && (|rest| > 0 ==> rest[0] != '/')
    ensures SlashesApart(head + rest)
  {
    var r := head + rest;
    var k := |head|;
    forall i, j | 0 <= i < |r| && 0 <= j < |r| && (j == i + 1 || i == j + 1) && r[i] == '/'
      ensures IsSpace(r[j])
    {
      if i >= k && j >= k {
        assert r[i] == rest[i - k] && r[j] == rest[j - k];
      }
    }
  }

  /** Both neighbours of every slash are whitespace. */
  predicate SlashesApart(r: string) {
    forall i, j :: 0 <= i < |r| && 0 <= j < |r| && (j == i + 1 || i == j + 1) && r[i] == '/' ==> IsSpace(r[j])
  }

  /** `clean_phrase` after `html.unescape`: unwrap `[[…]]`, `''…''` and `"…"`,
      drop unmatched brackets, pad slashes, collapse whitespace and strip.
      The result is trimmed and single-spaced, its brackets are balanced, and
      every slash in it is a word of its own. */
  function CleanPhrase(unescaped: string): (r: string)
    ensures IsNormal(r)
    ensures Brackets.Balanced(r)
    ensures forall w :: w in Words(r) && '/' in w ==> w == "/"
  {
    var a := SubLazy(unescaped, "[[", "]]");
    var b := SubLazy(a, "''", "''");
    var c := SubLazy(b, "\"", "\"");
    var d := Brackets.RemoveUnmatched(c);
    var e := PadSlashes(d);
    var f := CollapseSpace(e);
    var r := Strip(f);
    CollapseThenStrip(e);
    CleanedIsBalanced(d, e, f, r);
    SlashWords(e);
    r
  }

  lemma CleanedIsBalanced(d: string, e: string, f: string, r: string)
    requires Brackets.Balanced(d)
    requires e == PadSlashes(d) && f == CollapseSpace(e) && r == Strip(f)
    ensures Brackets.Balanced(r)
  {
    CleaningKeepsBrackets(d);
    Brackets.BalancedOnlyBrackets(d, []);
    Brackets.BalancedOnlyBrackets(r, []);
  }

  /** Padding slashes, collapsing whitespace and stripping keep the bracket
      characters, in order. */
  lemma CleaningKeepsBrackets(d: string)
    ensures Brackets.BracketsOf(Strip(CollapseSpace(PadSlashes(d)))) == Brackets.BracketsOf(d)
  {
    var e := PadSlashes(d);
    BracketsRejectSpace();
    BracketsAreFiltered(d);
    BracketsAreFiltered(Strip(CollapseSpace(e)));
    PadKeepsFilter(d, Brackets.IsBracket);
    NormalizeKeepsFilter(e, Brackets.IsBracket);
  }

  lemma BracketsRejectSpace()
    ensures RejectsSpace(Brackets.IsBracket)
  {
  }

  /** The bracket characters of a text are the ones the bracket filter keeps. */
  lemma {:induction false} BracketsAreFiltered(s: string)
    ensures Brackets.BracketsOf(s) == Filter(s, Brackets.IsBracket)
    decreases |s|
  {
    if |s| > 0 {
      BracketsAreFiltered(s[1..]);
    }
  }

  /** Padding slashes keeps every character a filter keeps, in order, when the
      filter rejects both the space and the slash. */
  lemma {:induction false} PadKeepsFilter(s: string, keep: char -> bool)
    requires !keep(' ') && !keep('/')
    ensures Filter(PadSlashes(s), keep) == Filter(s, keep)
    decreases |s|
  {
    if |s| > 0 {
      PadKeepsFilter(s[1..], keep);
      var head := if s[0] == '/' then " / " else [s[0]];
      assert " / "[1..] == "/ " && "/ "[1..] == " " && " "[1..] == "";
      FilterConcat(head, PadSlashes(s[1..]), keep);
      FilterCons(s[0], s[1..], keep);
      HeadTail(s);
    }
  }

  /** When every slash has whitespace on both sides, a word that contains a
      slash is the slash alone. */
  lemma {:induction false} SlashWords(s: string)
    requires SlashesApart(s)
    ensures forall w :: w in Words(s) && '/' in w ==> w == "/"
    decreases |s|
  {
    if |s| > 0 {
      var t := if IsSpace(s[0]) then s[1..] else s[SpanWord(s)..];
      assert SlashesApart(t) by {
        var k := |s| - |t|;
        forall i, j | 0 <= i < |t| && 0 <= j < |t| && (j == i + 1 || i == j + 1) && t[i] == '/'
          ensures IsSpace(t[j])
        {
          assert t[i] == s[k + i] && t[j] == s[k + j];
        }
      }
      SlashWords(t);
      if !IsSpace(s[0]) {
        var n := SpanWord(s);
        var w := s[..n];
        forall i | 0 <= i < n ensures !IsSpace(s[i]) { assert s[i] == w[i]; }
        forall i | 0 < i < n ensures s[i] != '/' { assert !IsSpace(s[i - 1]); }
        forall i | 0 <= i < n - 1 ensures s[i] != '/' { assert !IsSpace(s[i + 1]); }
        if '/' in w {
          var k :| 0 <= k < n && w[k] == '/';
          assert s[k] == '/';
          assert w == "/";
        }
      }
    }
  }

  // ---------------------------------------------------------------------
  // Properties of the lazy substitution

  /** Without the opening delimiter's first character the substitution changes nothing. */
  lemma {:induction false} SubLazyOfPlain(s: string, open: string, close: string)
    requires |open| > 0 && open[0] !in s
    ensures SubLazy(s, open, close) == s
    decreases |s|
  {
    if |s| > 0 {
      StartsWithHead(s, open);
      assert open[0] !in s[1..] by { assert forall i :: 0 <= i < |s| - 1 ==> s[1..][i] == s[i + 1]; }
      SubLazyOfPlain(s[1..], open, close);
      HeadTail(s);
    }
  }

  /** One delimited span is unwrapped: `re.sub(open + "(.*?)" + close, r"\1",
      open + body + close) == body` when the body holds no line feed and the
      closing delimiter does not start inside it. */
  lemma SubLazyUnwrap(open: string, body: string, close: string)
    requires |open| > 0
    requires LineFeed !in body
    requires forall k :: 0 <= k < |body| ==> !StartsWith((body + close)[k..], close)
    ensures SubLazy(open + body + close, open, close) == body
  {
    var s := open + body + close;
    var e := |open| + |body|;
    assert s[..|open|] == open;
    assert s[|open|..e] == body;
    assert s[e..] == close;
    assert forall k :: |open| <= k <= |s| ==> s[k..] == (body + close)[k - |open|..];
    LazyUntilFinds(s, |open|, close);
    var m := LazyUntil(s, |open|, close);
    assert m == Some(e);
    assert s[e + |close|..] == "";
  }

  /** One match splits the text at `a`, `q` and `c` into the opening
      delimiter, the body, the closing delimiter and the rest. */
  lemma FilterOfMatch(s: string, a: nat, q: nat, c: nat, keep: char -> bool)
    requires a <= q <= c <= |s|
    requires Filter(s[..a], keep) == "" && Filter(s[q..c], keep) == ""
    ensures Filter(s, keep) == Filter(s[a..q], keep) + Filter(s[c..], keep)
  {
    FilterSplit(s, a, keep);
    FilterSlices(s, a, q, keep);
    FilterSlices(s, q, c, keep);
    AppendEmpty(Filter(s[c..], keep));
    AppendEmpty(Filter(s[a..], keep));
  }

  lemma StartsWithSlice(s: string, p: nat, o: string)
    requires p <= |s| && StartsWith(s[p..], o)
    ensures p + |o| <= |s| && s[p..p + |o|] == o
  {
    assert s[p..][..|o|] == s[p..p + |o|];
  }

  /** A delimiter found in the text holds nothing the filter keeps there either. */
  lemma FilterOfDelimiter(s: string, p: nat, o: string, keep: char -> bool)
    requires p <= |s| && StartsWith(s[p..], o) && Filter(o, keep) == ""
    ensures p + |o| <= |s| && Filter(s[p..p + |o|], keep) == ""
  {
    StartsWithSlice(s, p, o);
  }

  lemma FilterOfOpening(s: string, o: string, keep: char -> bool)
    requires StartsWith(s, o) && Filter(o, keep) == ""
    ensures Filter(s[..|o|], keep) == ""
  {
  }

  /** The substitution drops only delimiters: every character a filter keeps
      and the delimiters lack stays, in order. */
  lemma {:induction false} SubLazyKeepsFilter(s: string, open: string, close: string, keep: char -> bool)
    requires |open| > 0
    requires Filter(open, keep) == "" && Filter(close, keep) == ""
    ensures Filter(SubLazy(s, open, close), keep) == Filter(s, keep)
    decreases |s|
  {
    if |s| > 0 {
      if StartsWith(s, open) && LazyUntil(s, |open|, close).Some? {
        var q := LazyUntil(s, |open|, close).value;
        var c := q + |close|;
        var rest := SubLazy(s[c..], open, close);
        FilterOfOpening(s, open, keep);
        FilterOfDelimiter(s, q, close, keep);
        SubLazyKeepsFilter(s[c..], open, close, keep);
        assert SubLazy(s, open, close) == s[|open|..q] + rest;
        FilterConcat(s[|open|..q], rest, keep);
        FilterOfMatch(s, |open|, q, c, keep);
      } else {
        SubLazyKeepsFilter(s[1..], open, close, keep);
        FilterCons(s[0], SubLazy(s[1..], open, close), keep);
        FilterCons(s[0], s[1..], keep);
        HeadTail(s);
      }
    }
  }

  // ---------------------------------------------------------------------
  // What clean_phrase keeps

  /** The characters `clean_phrase` may delete or insert: brackets, both
      quote characters and the slash (besides whitespace). */
  predicate IsMarkup(c: char) {
    Brackets.IsBracket(c) || c == '\'' || c == '"' || c == '/'
  }

  /** The characters `clean_phrase` neither deletes nor inserts. */
  predicate IsContent(c: char) {
    !IsSpace(c) && !IsMarkup(c)
  }

  lemma ContentRejectsSpace()
    ensures RejectsSpace(IsContent)
  {
  }

  /** Deleting brackets keeps every content character, in order. */
  lemma {:induction false} DropKeepsContent(s: string, r: string)
    requires Brackets.DropsOnlyBrackets(s, r)
    ensures Filter(r, IsContent) == Filter(s, IsContent)
    decreases |s|
  {
    if |s| > 0 {
      if |r| > 0 && r[0] == s[0] && Brackets.DropsOnlyBrackets(s[1..], r[1..]) {
        DropKeepsContent(s[1..], r[1..]);
      } else {
        DropKeepsContent(s[1..], r);
      }
    }
  }

  lemma DelimitersHoldNoContent()
    ensures Filter("[[", IsContent) == "" && Filter("]]", IsContent) == ""
    ensures Filter("''", IsContent) == "" && Filter("\"", IsContent) == ""
  {
    assert "[["[1..] == "[" && "]]"[1..] == "]" && "''"[1..] == "'" && "\""[1..] == "";
    assert "["[1..] == "" && "]"[1..] == "" && "'"[1..] == "";
  }

  /** Unwrapping links and quotes keeps every content character, in order. */
  lemma UnwrapKeepsContent(u: string)
    ensures
      var c := SubLazy(SubLazy(SubLazy(u, "[[", "]]"), "''", "''"), "\"", "\"");
      Filter(c, IsContent) == Filter(u, IsContent)
  {
    DelimitersHoldNoContent();
    var a := SubLazy(u, "[[", "]]");
    var b := SubLazy(a, "''", "''");
    SubLazyKeepsFilter(u, "[[", "]]", IsContent);
    SubLazyKeepsFilter(a, "''", "''", IsContent);
    SubLazyKeepsFilter(b, "\"", "\"", IsContent);
  }

  /** `clean_phrase` keeps every character other than whitespace, brackets,
      quote characters and slashes, in order: it deletes and inserts only those. */
  lemma CleanPhraseKeepsContent(u: string)
    ensures Filter(CleanPhrase(u), IsContent) == Filter(u, IsContent)
  {
    var c := SubLazy(SubLazy(SubLazy(u, "[[", "]]"), "''", "''"), "\"", "\"");
    var d := Brackets.RemoveUnmatched(c);
    var e := PadSlashes(d);
    UnwrapKeepsContent(u);
    DropKeepsContent(c, d);
    PadKeepsFilter(d, IsContent);
    ContentRejectsSpace();
    NormalizeKeepsFilter(e, IsContent);
  }

  /** A filter keeps nothing of a text whose characters it all rejects. */
  lemma {:induction false} FilterNone(s: string, keep: char -> bool)
    requires forall i :: 0 <= i < |s| ==> !keep(s[i])
    ensures Filter(s, keep) == ""
    decreases |s|
  {
    if |s| > 0 {
      assert forall i :: 0 <= i < |s| - 1 ==> s[1..][i] == s[i + 1];
      FilterNone(s[1..], keep);
    }
  }

  /** Text without slashes is not padded. */
  lemma {:induction false} PadWithoutSlash(s: string)
    requires '/' !in s
    ensures PadSlashes(s) == s
    decreases |s|
  {
    if |s| > 0 {
      assert s[0] != '/';
      assert '/' !in s[1..] by { assert forall i :: 0 <= i < |s| - 1 ==> s[1..][i] == s[i + 1]; }
      PadWithoutSlash(s[1..]);
      HeadTail(s);
    }
  }

  /** Text without brackets is balanced, so bracket removal leaves it alone. */
  lemma RemoveUnmatchedOfPlain(s: string)
    requires forall i :: 0 <= i < |s| ==> !Brackets.IsBracket(s[i])
    ensures Brackets.RemoveUnmatched(s) == s
  {
    BracketsAreFiltered(s);
    FilterNone(s, Brackets.IsBracket);
    Brackets.BalancedOnlyBrackets(s, []);
    Brackets.RemoveUnmatchedFixpoint(s);
  }

  /** On text without brackets, quote characters or slashes, `clean_phrase`
      only normalises whitespace: it equals `" ".join(s.split())`. */
  lemma CleanPhraseOfPlain(u: string)
    requires forall i :: 0 <= i < |u| ==> !IsMarkup(u[i])
    ensures CleanPhrase(u) == NormalizeSpace(u)
  {
    assert '[' !in u && '\'' !in u && '"' !in u && '/' !in u;
    SubLazyOfPlain(u, "[[", "]]");
    SubLazyOfPlain(u, "''", "''");
    SubLazyOfPlain(u, "\"", "\"");
    RemoveUnmatchedOfPlain(u);
    PadWithoutSlash(u);
    CollapseThenStrip(u);
  }

  // ---------------------------------------------------------------------
  // wiki_to_text

  /** `[^\]\[]*` from index `from`: the first index at or after `from` that
      holds `[` or `]`, or the end. */
  function SpanNoSquare(s: string, from: nat): (q: nat)
    requires from <= |s|
    ensures from <= q <= |s|
    ensures forall k :: from <= k < q ==> s[k] != '[' && s[k] != ']'
    ensures q == |s| || s[q] == '[' || s[q] == ']'
    decreases |s| - from
  {
    if from == |s| || s[from] == '[' || s[from] == ']' then from else SpanNoSquare(s, from + 1)
  }

  /** `\[\[([^\]\[]*)\]\]` tried at index `p`: the end of the captured inner text. */
  function LinkAt(s: string, p: nat): (r: Option<nat>)
    requires p <= |s|
    ensures r.Some? ==> p + 2 <= r.value && r.value + 2 <= |s|
  {
    if StartsWith(s[p..], "[[") then
      var q := SpanNoSquare(s, p + 2);
      if q + 1 < |s| && s[q] == ']' && s[q + 1] == ']' then Some(q) else None
    else None
  }

  /** `replace_link`: the text after the last `|` of a link, or the whole link. */
  function LinkText(inner: string): (r: string)
    ensures '|' !in r
    ensures |r| <= |inner| && r == inner[|inner| - |r|..]
    ensures '|' !in inner ==> r == inner
  {
    if '|' in inner then
      var parts := SplitOn(inner, '|');
      var n := |parts|;
      assert n >= 2;
      JoinWithLast(parts, '|');
      assert inner == JoinWith(parts[..n - 1], '|') + ['|'] + parts[n - 1];
      parts[n - 1]
    else inner
  }

  /** `wiki_to_text`: every `[[…]]` link whose inner text has no square bracket
      is replaced by its display text. The scan goes left to right and resumes
      after each replaced link, as `re.sub` does. */
  function WikiToText(s: string): string
    decreases |s|
  {
    if |s| == 0 then ""
    else match LinkAt(s, 0)
      case Some(q) => LinkText(s[2..q]) + WikiToText(s[q + 2..])
      case None => [s[0]] + WikiToText(s[1..])
  }

  lemma AppendAssoc(a: string, b: string, c: string)
    ensures a + (b + c) == (a + b) + c
  {
  }

  /** Text without `[` passes through unchanged in front of whatever follows. */
  lemma {:induction false} WikiToTextPlain(x: string, y: string)
    requires '[' !in x
    ensures WikiToText(x + y) == x + WikiToText(y)
    decreases |x|
  {
    if |x| > 0 {
      var s := x + y;
      assert s[0] == x[0] && x[0] != '[';
      StartsWithHead(s, "[[");
      assert LinkAt(s, 0) == None;
      assert s[1..] == x[1..] + y;
      WikiToTextPlain(x[1..], y);
      AppendAssoc([x[0]], x[1..], WikiToText(y));
      assert [x[0]] + x[1..] == x;
    } else {
      assert x + y == y;
    }
  }

  /** Text without `[` is left alone. */
  lemma WikiToTextNoLink(s: string)
    requires '[' !in s
    ensures WikiToText(s) == s
  {
    WikiToTextPlain(s, "");
    assert s + "" == s;
  }

  /** A link in front of more text becomes its display text, and the rest is
      converted on its own. */
  lemma WikiToTextLinkThen(inner: string, y: string)
    requires '[' !in inner && ']' !in inner
    ensures WikiToText("[[" + inner + "]]" + y) == LinkText(inner) + WikiToText(y)
  {
    var s := "[[" + inner + "]]" + y;
    var e := |inner| + 2;
    assert s[..2] == "[[";
    forall k | 2 <= k < e ensures s[k] != '[' && s[k] != ']' { assert s[k] == inner[k - 2]; }
    assert s[e] == ']' && s[e + 1] == ']';
    assert SpanNoSquare(s, 2) == e;
    assert LinkAt(s, 0) == Some(e);
    assert s[2..e] == inner;
    assert s[e + 2..] == y;
  }

  /** A single link becomes its display text. */
  lemma WikiToTextLink(inner: string)
    requires '[' !in inner && ']' !in inner
    ensures WikiToText("[[" + inner + "]]") == LinkText(inner)
  {
    WikiToTextLinkThen(inner, "");
    assert "[[" + inner + "]]" + "" == "[[" + inner + "]]";
    assert LinkText(inner) + "" == LinkText(inner);
  }

  /** `wiki_to_text` over plain text, one link and the rest. */
  lemma WikiToTextConcat(x: string, inner: string, y: string)
    requires '[' !in x && '[' !in inner && ']' !in inner
    ensures WikiToText(x + "[[" + inner + "]]" + y) == x + LinkText(inner) + WikiToText(y)
  {
    assert x + "[[" + inner + "]]" + y == x + ("[[" + inner + "]]" + y);
    WikiToTextPlain(x, "[[" + inner + "]]" + y);
    WikiToTextLinkThen(inner, y);
    AppendAssoc(x, LinkText(inner), WikiToText(y));
  }

  // ---------------------------------------------------------------------
  // extract_words

  /** The bounds of a captured text: from `lo` up to, not including, `hi`. */
  datatype Span = Span(lo: nat, hi: nat)

  /** `\{\{t[+-]?\|(.*?)\}\}` tried at index `p`: the bounds of the captured text. */
  function TemplateAt(s: string, p: nat): (r: Option<Span>)
    requires p <= |s|
    ensures r.Some? ==> p + 4 <= r.value.lo <= r.value.hi && r.value.hi + 2 <= |s|
  {
    if !StartsWith(s[p..], "{{t") then None
    else
      var k := p + 3;
      var from :=
        if k + 1 < |s| && (s[k] == '+' || s[k] == '-') && s[k + 1] == '|' then Some(k + 2)
        else if k < |s| && s[k] == '|' then Some(k + 1)
        else None;
      match from
      case None => None
      case Some(a) =>
        match LazyUntil(s, a, "}}")
        case None => None
        case Some(q) => Some(Span(a, q))
  }

  /** `re.findall` of the template pattern: the captured texts of the
      successive non-overlapping matches, scanning left to right. */
  function FindTemplates(s: string): seq<string>
    decreases |s|
  {
    if |s| == 0 then []
    else
      var m := TemplateAt(s, 0);
      if m.Some? then [s[m.value.lo..m.value.hi]] + FindTemplates(s[m.value.hi + 2..])
      else FindTemplates(s[1..])
  }

  /** A word as `extract_words` keeps it: non-empty, stripped and free of `|`. */
  predicate IsTemplateWord(w: string) {
    |w| > 0 && !IsSpace(w[0]) && !IsSpace(w[|w| - 1]) && '|' !in w
  }

  /** A parameter of a template, stripped; nothing if it is blank. */
  function ParamWord(param: string): (r: seq<string>)
    requires '|' !in param
    ensures |r| <= 1
    ensures r == [] <==> AllSpace(param)
    ensures forall w :: w in r ==> IsTemplateWord(w) && w == Strip(param)
  {
    var w := Strip(param);
    StripHasNo(param, '|');
    StripEmptyIffBlank(param);
    if |w| > 0 then [w] else []
  }

  /** The word one template contributes: its second `|`-separated parameter,
      stripped, after links are turned into text; nothing if that is missing or blank. */
  function TemplateWord(m: string): (r: seq<string>)
    ensures |r| <= 1
    ensures forall w :: w in r ==> IsTemplateWord(w)
  {
    var params := SplitOn(WikiToText(m), '|');
    if |params| >= 2 then ParamWord(params[1]) else []
  }

  /** The template yields a word exactly when its second parameter exists and
      is not blank, and that word is the parameter stripped. */
  lemma TemplateWordChoice(m: string)
    ensures var params := SplitOn(WikiToText(m), '|');
      && (TemplateWord(m) == [] <==> |params| < 2 || AllSpace(params[1]))
      && (TemplateWord(m) != [] ==> |params| >= 2 && TemplateWord(m) == [Strip(params[1])])
  {
  }

  lemma StripHasNo(s: string, c: char)
    requires c !in s
    ensures c !in Strip(s)
  {
    var r := Strip(s);
    var a := StripFrom(s);
    forall i | 0 <= i < |r| ensures r[i] != c { assert r[i] == s[a + i]; }
  }

  function WordsOfTemplates(ms: seq<string>): (ws: seq<string>)
    ensures |ws| <= |ms|
    ensures forall w :: w in ws ==> IsTemplateWord(w)
  {
    if |ms| == 0 then [] else TemplateWord(ms[0]) + WordsOfTemplates(ms[1..])
  }

  /** `extract_words`: one trimmed, non-empty, pipe-free word per translation
      template that names one. */
  function ExtractWords(part: string): (ws: seq<string>)
    ensures |ws| <= |FindTemplates(part)|
    ensures forall w :: w in ws ==> IsTemplateWord(w)
  {
    WordsOfTemplates(FindTemplates(part))
  }

  /** Text without `{` holds no template: only what follows it counts. */
  lemma {:induction false} FindTemplatesPlain(x: string, y: string)
    requires '{' !in x
    ensures FindTemplates(x + y) == FindTemplates(y)
    decreases |x|
  {
    if |x| > 0 {
      var s := x + y;
      assert s[0] == x[0] && x[0] != '{';
      StartsWithHead(s, "{{t");
      assert TemplateAt(s, 0) == None;
      assert s[1..] == x[1..] + y;
      FindTemplatesPlain(x[1..], y);
    } else {
      assert x + y == y;
    }
  }

  /** The opening `{{t|`, `{{t+|` or `{{t-|` of a translation template. */
  predicate IsTemplateOpen(o: string) {
    o == "{{t|" || o == "{{t+|" || o == "{{t-|"
  }

  /** A template whose captured text has no `}` and no line feed matches
      exactly up to its closing braces. */
  lemma TemplateAtOpen(o: string, m: string, y: string)
    requires IsTemplateOpen(o) && '}' !in m && LineFeed !in m
    ensures TemplateAt(o + m + "}}" + y, 0) == Some(Span(|o|, |o| + |m|))
  {
    var s := o + m + "}}" + y;
    var a := |o|;
    var e := a + |m|;
    assert s[..|o|] == o;
    assert s[..3] == "{{t";
    assert s[a..e] == m;
    assert s[e..e + 2] == "}}";
    assert StartsWith(s[e..], "}}") by { assert s[e..][..2] == s[e..e + 2]; }
    forall k | a <= k < e ensures !StartsWith(s[k..], "}}") {
      assert s[k..][0] == s[k] == m[k - a];
    }
    assert LineFeed !in s[a..e];
    LazyUntilFinds(s, a, "}}");
    assert LazyUntil(s, a, "}}") == Some(e);
  }

  /** A translation template in front of more text contributes its captured
      text, and the rest is scanned on its own. */
  lemma FindTemplatesThen(o: string, m: string, y: string)
    requires IsTemplateOpen(o) && '}' !in m && LineFeed !in m
    ensures FindTemplates(o + m + "}}" + y) == [m] + FindTemplates(y)
  {
    var s := o + m + "}}" + y;
    var e := |o| + |m|;
    TemplateAtOpen(o, m, y);
    FindTemplatesAt(s, |o|, e);
    SlicesOfFour(o, m, "}}", y);
  }

  /** A match at the start is taken, and the scan resumes after it. */
  lemma FindTemplatesAt(s: string, a: nat, e: nat)
    requires |s| > 0 && TemplateAt(s, 0) == Some(Span(a, e))
    ensures a <= e && e + 2 <= |s|
    ensures FindTemplates(s) == [s[a..e]] + FindTemplates(s[e + 2..])
  {
  }

  lemma SlicesOfFour(a: string, b: string, c: string, d: string)
    ensures (a + b + c + d)[|a|..|a| + |b|] == b
    ensures (a + b + c + d)[|a| + |b| + |c|..] == d
  {
  }

  /** Text without `{` contributes no word. */
  lemma ExtractWordsPlain(x: string, y: string)
    requires '{' !in x
    ensures ExtractWords(x + y) == ExtractWords(y)
  {
    FindTemplatesPlain(x, y);
  }

  /** A translation template contributes the word of its captured text in
      front of the words of what follows. */
  lemma ExtractWordsThen(o: string, m: string, y: string)
    requires IsTemplateOpen(o) && '}' !in m && LineFeed !in m
    ensures ExtractWords(o + m + "}}" + y) == TemplateWord(m) + ExtractWords(y)
  {
    FindTemplatesThen(o, m, y);
    var ms := [m] + FindTemplates(y);
    assert ms[1..] == FindTemplates(y);
  }

  /** The template parameters `lang|word` yield the word. */
  lemma TemplateWordOf(lang: string, word: string)
    requires forall c :: c in lang || c in word ==> c != '|' && c != '['
    requires |word| > 0 && !IsSpace(word[0]) && !IsSpace(word[|word| - 1])
    ensures TemplateWord(lang + "|" + word) == [word]
  {
    var m := lang + "|" + word;
    WikiToTextNoLink(m);
    assert m == lang + ['|'] + word;
    SplitOnTwo(lang, word, '|');
    StripOfTrimmed(word);
  }

  /** A plain translation template `{{t|lang|word}}` yields its word. */
  lemma ExtractWordsOfTemplate(lang: string, word: string)
    requires forall c :: c in lang || c in word ==> c != '|' && c != '[' && c != '}' && c != LineFeed
    requires |word| > 0 && !IsSpace(word[0]) && !IsSpace(word[|word| - 1])
    ensures ExtractWords("{{t|" + lang + "|" + word + "}}") == [word]
  {
    var m := lang + "|" + word;
    assert "{{t|" + lang + "|" + word + "}}" == "{{t|" + m + "}}" + "";
    ExtractWordsThen("{{t|", m, "");
    TemplateWordOf(lang, word);
    assert ExtractWords("") == [];
  }
}
