/** `sort.py`: keep the lines that hold exactly one tab-separated pair, sort
    them by (original, word count of the translation, length of the
    translation), and drop a line that repeats the one printed just before. */
module LineSort {
  import opened Options
  import opened Text
  import opened Collation

  const Tab: char := '\t'

  /** A stripped line is kept when it holds exactly one tab, which is when
      `split("\t")` gives two fields (`ValidIsTwoFields`). */
  predicate Valid(stripped: string) {
    multiset(stripped)[Tab] == 1
  }

  predicate AllValid(xs: seq<string>) {
    forall y :: y in xs ==> Valid(y)
  }

  function Stripped(lines: seq<string>): (r: seq<string>)
    ensures |r| == |lines|
    ensures forall i :: 0 <= i < |lines| ==> r[i] == Strip(lines[i])
  {
    seq(|lines|, i requires 0 <= i < |lines| => Strip(lines[i]))
  }

  /** The lines the filter loop keeps, from the stripped input lines, in
      order. */
  function Kept(stripped: seq<string>): (r: seq<string>)
    ensures forall k :: 0 <= k < |r| ==> Valid(r[k])
    decreases |stripped|
  {
    if |stripped| == 0 then []
    else (if Valid(stripped[0]) then [stripped[0]] else []) + Kept(stripped[1..])
  }

  /** The lines the filter loop sends to standard error, in order. */
  function Rejected(stripped: seq<string>): (r: seq<string>)
    ensures forall k :: 0 <= k < |r| ==> !Valid(r[k])
    decreases |stripped|
  {
    if |stripped| == 0 then []
    else (if Valid(stripped[0]) then [] else [stripped[0]]) + Rejected(stripped[1..])
  }

  /** No whitespace at either end. */
  predicate Trimmed(s: string) {
    |s| == 0 || (!IsSpace(s[0]) && !IsSpace(s[|s| - 1]))
  }

  /** Lines already stripped stay as they are. */
  lemma StrippedUnchanged(lines: seq<string>)
    requires forall i :: 0 <= i < |lines| ==> Trimmed(lines[i])
    ensures Stripped(lines) == lines
  {
    forall i | 0 <= i < |lines| ensures Stripped(lines)[i] == lines[i] {
      StripOfTrimmed(lines[i]);
    }
  }

  /** Nothing is rejected from valid lines. */
  lemma {:induction false} KeptAllValid(xs: seq<string>)
    requires AllValid(xs)
    ensures Kept(xs) == xs
    decreases |xs|
  {
    if |xs| > 0 {
      assert xs[0] in xs;
      assert AllValid(xs[1..]) by {
        forall y | y in xs[1..] ensures Valid(y) { assert y in xs; }
      }
      KeptAllValid(xs[1..]);
      assert [xs[0]] + xs[1..] == xs;
    }
  }

  /** Every stripped line lands in exactly one of the two lists, repeats
      counted. */
  lemma {:induction false} FilterPartition(stripped: seq<string>)
    ensures multiset(Kept(stripped)) + multiset(Rejected(stripped)) == multiset(stripped)
    decreases |stripped|
  {
    if |stripped| > 0 {
      var x, t := stripped[0], stripped[1..];
      FilterPartition(t);
      assert multiset(stripped) == multiset{x} + multiset(t) by {
        assert stripped == [x] + t;
      }
      if Valid(x) {
        assert Kept(stripped) == [x] + Kept(t) && Rejected(stripped) == Rejected(t);
      } else {
        assert Kept(stripped) == Kept(t) && Rejected(stripped) == [x] + Rejected(t);
      }
    }
  }

  lemma StripIdempotent(s: string)
    ensures Strip(Strip(s)) == Strip(s)
  {
    StripOfTrimmed(Strip(s));
  }

  // ---------------------------------------------------------------------
  // The sort key

  /** `key_func`: the original, and the number of words and of characters of
      the translation. It strips the line again, which changes nothing on the
      kept lines (`StripIdempotent`), so it is modelled on the stripped line. */
  function KeyOf(line: string): Key
    requires Valid(line)
  {
    var i := IndexOf(line, Tab);
    Key(line[..i], |Words(line[i + 1..])|, |line[i + 1..]|)
  }

  /** `split("\t")` gives two fields exactly on the kept lines, and the key
      reads those two fields. */
  lemma ValidIsTwoFields(line: string)
    ensures Valid(line) <==> |SplitOn(line, Tab)| == 2
    ensures Valid(line) ==>
      (KeyOf(line) == Key(SplitOn(line, Tab)[0], |Words(SplitOn(line, Tab)[1])|, |SplitOn(line, Tab)[1]|))
  {
    if Valid(line) {
      var i := IndexOf(line, Tab);
      assert line == line[..i] + [Tab] + line[i + 1..];
      assert multiset(line)[Tab] == multiset(line[..i])[Tab] + 1 + multiset(line[i + 1..])[Tab];
      assert Tab !in line[i + 1..];
      SplitOnTwo(line[..i], line[i + 1..], Tab);
    }
  }

  /** The key of a line built from two tab-free fields. */
  lemma KeyOfFields(original: string, translation: string)
    requires Tab !in original && Tab !in translation
    ensures Valid(original + [Tab] + translation)
    ensures KeyOf(original + [Tab] + translation) ==
      Key(original, |Words(translation)|, |translation|)
  {
    var line := original + [Tab] + translation;
    SplitOnTwo(original, translation, Tab);
    ValidIsTwoFields(line);
  }

  /** The order the sort uses. With `tie` false it is the key alone, as in
      `sort.py`; with `tie` true equal keys are ordered by the whole line. */
  predicate Before(a: string, b: string, tie: bool)
    requires Valid(a) && Valid(b)
  {
    KeyLe(KeyOf(a), KeyOf(b)) &&
    (!tie || KeyOf(a) != KeyOf(b) || a == b || Less(a, b))
  }

  lemma BeforeTotal(a: string, b: string, tie: bool)
    requires Valid(a) && Valid(b)
    ensures Before(a, b, tie) || Before(b, a, tie)
  {
    KeyLeTotal(KeyOf(a), KeyOf(b));
    LessTotal(a, b);
    if KeyLe(KeyOf(a), KeyOf(b)) && KeyLe(KeyOf(b), KeyOf(a)) {
      KeyLeAntisymmetric(KeyOf(a), KeyOf(b));
    }
  }

  lemma BeforeTransitive(a: string, b: string, c: string, tie: bool)
    requires Valid(a) && Valid(b) && Valid(c)
    requires Before(a, b, tie) && Before(b, c, tie)
    ensures Before(a, c, tie)
  {
    var ka, kb, kc := KeyOf(a), KeyOf(b), KeyOf(c);
    KeyLeTransitive(ka, kb, kc);
    if tie && ka == kc {
      KeyLeAntisymmetric(ka, kb);
      if Less(a, b) && Less(b, c) {
        LessTransitive(a, b, c);
      }
    }
  }

  /** With ties broken by the line, only equal lines go either way. */
  lemma BeforeAntisymmetric(a: string, b: string)
    requires Valid(a) && Valid(b)
    requires Before(a, b, true) && Before(b, a, true)
    ensures a == b
  {
    KeyLeAntisymmetric(KeyOf(a), KeyOf(b));
    if Less(a, b) {
      LessAsymmetric(a, b);
    }
  }

  // ---------------------------------------------------------------------
  // The sort

  /** Adjacent lines are in order. */
  predicate SortedBy(xs: seq<string>, tie: bool)
    requires AllValid(xs)
  {
    forall i :: 0 <= i < |xs| - 1 ==> Before(xs[i], xs[i + 1], tie)
  }

  /** Every line is in order with every later line. */
  predicate OrderedBy(xs: seq<string>, tie: bool)
    requires AllValid(xs)
  {
    forall i, j :: 0 <= i < j < |xs| ==> Before(xs[i], xs[j], tie)
  }

  /** Put `x` in front of the first line it does not come after: before
      every line with an equal key, so that earlier input stays first. */
  function InsertBy(x: string, ys: seq<string>, tie: bool): (r: seq<string>)
    requires Valid(x) && AllValid(ys) && SortedBy(ys, tie)
    ensures multiset(r) == multiset(ys) + multiset{x}
    ensures AllValid(r) && SortedBy(r, tie)
    ensures r[0] == x || (|ys| > 0 && r[0] == ys[0])
    decreases |ys|
  {
    if |ys| == 0 || Before(x, ys[0], tie) then
      ConsSorted(x, ys, tie);
      [x] + ys
    else
      SortedTail(ys, tie);
      var rest := InsertBy(x, ys[1..], tie);
      InsertBehind(x, ys, rest, tie);
      [ys[0]] + rest
  }

  /** When `x` comes after the head, the head goes first and `x` into the tail. */
  lemma InsertBehind(x: string, ys: seq<string>, rest: seq<string>, tie: bool)
    requires Valid(x) && |ys| > 0 && AllValid(ys) && SortedBy(ys, tie) && !Before(x, ys[0], tie)
    requires multiset(rest) == multiset(ys[1..]) + multiset{x}
    requires AllValid(rest) && SortedBy(rest, tie)
    requires rest[0] == x || (|ys[1..]| > 0 && rest[0] == ys[1..][0])
    ensures multiset([ys[0]] + rest) == multiset(ys) + multiset{x}
    ensures AllValid([ys[0]] + rest) && SortedBy([ys[0]] + rest, tie)
  {
    assert multiset(ys) == multiset{ys[0]} + multiset(ys[1..]) by {
      assert ys == [ys[0]] + ys[1..];
    }
    assert Before(ys[0], rest[0], tie) by {
      BeforeTotal(x, ys[0], tie);
    }
    ConsSorted(ys[0], rest, tie);
  }

  /** The tail of a sorted list is sorted. */
  lemma SortedTail(ys: seq<string>, tie: bool)
    requires |ys| > 0 && AllValid(ys) && SortedBy(ys, tie)
    ensures AllValid(ys[1..]) && SortedBy(ys[1..], tie)
  {
    var t := ys[1..];
    forall y | y in t ensures Valid(y) { assert y in ys; }
    forall i | 0 <= i < |t| - 1 ensures Before(t[i], t[i + 1], tie) {
      assert t[i] == ys[i + 1] && t[i + 1] == ys[i + 2];
    }
  }

  /** A line in order with the head of a sorted list can go in front of it. */
  lemma ConsSorted(y: string, rest: seq<string>, tie: bool)
    requires Valid(y) && AllValid(rest) && SortedBy(rest, tie)
    requires |rest| > 0 ==> Before(y, rest[0], tie)
    ensures AllValid([y] + rest) && SortedBy([y] + rest, tie)
  {
    var r := [y] + rest;
    forall z | z in r ensures Valid(z) { assert z == y || z in rest; }
    forall i | 0 <= i < |r| - 1 ensures Before(r[i], r[i + 1], tie) {
      if i > 0 {
        assert r[i] == rest[i - 1] && r[i + 1] == rest[i];
      }
    }
  }

  /** `sorted(valid_lines, key=key_func)`: a stable sort, so lines with equal
      keys keep their input order (`SortStable`). */
  function SortBy(xs: seq<string>, tie: bool): (r: seq<string>)
    requires AllValid(xs)
    ensures multiset(r) == multiset(xs)
    ensures AllValid(r) && SortedBy(r, tie)
    decreases |xs|
  {
    if |xs| == 0 then []
    else
      assert xs == [xs[0]] + xs[1..];
      InsertBy(xs[0], SortBy(xs[1..], tie), tie)
  }

  /** Order between neighbours gives order between any two lines. */
  lemma {:induction false} SortedIsOrdered(xs: seq<string>, tie: bool)
    requires AllValid(xs) && SortedBy(xs, tie)
    ensures OrderedBy(xs, tie)
    decreases |xs|
  {
    if |xs| > 1 {
      var t := xs[1..];
      assert AllValid(t);
      assert SortedBy(t, tie) by {
        forall i | 0 <= i < |t| - 1 ensures Before(t[i], t[i + 1], tie) {
          assert t[i] == xs[i + 1] && t[i + 1] == xs[i + 2];
        }
      }
      SortedIsOrdered(t, tie);
      forall i, j | 0 <= i < j < |xs| ensures Before(xs[i], xs[j], tie) {
        if i == 0 {
          if j > 1 {
            assert Before(t[0], t[j - 1], tie);
            BeforeTransitive(xs[0], xs[1], xs[j], tie);
          }
        } else {
          assert Before(t[i - 1], t[j - 1], tie);
        }
      }
    }
  }

  /** Lines already in key order are left where they are: the sort is
      stable, so it changes nothing it does not have to. */
  lemma {:induction false} SortSorted(xs: seq<string>)
    requires AllValid(xs) && SortedBy(xs, false)
    ensures SortBy(xs, false) == xs
    decreases |xs|
  {
    if |xs| > 0 {
      var t := xs[1..];
      assert AllValid(t);
      assert SortedBy(t, false) by {
        forall i | 0 <= i < |t| - 1 ensures Before(t[i], t[i + 1], false) {
          assert t[i] == xs[i + 1] && t[i + 1] == xs[i + 2];
        }
      }
      SortSorted(t);
      assert |t| == 0 || Before(xs[0], t[0], false);
      assert InsertBy(xs[0], t, false) == [xs[0]] + t;
      assert [xs[0]] + t == xs;
    }
  }

  /** The lines whose key is `k`, in order. */
  function OfKey(xs: seq<string>, k: Key): (r: seq<string>)
    requires AllValid(xs)
    ensures forall y :: y in r ==> y in xs && KeyOf(y) == k
    decreases |xs|
  {
    if |xs| == 0 then []
    else (if KeyOf(xs[0]) == k then [xs[0]] else []) + OfKey(xs[1..], k)
  }

  /** `OfKey` of a list with a given first line. */
  lemma OfKeyCons(y: string, t: seq<string>, k: Key)
    requires Valid(y) && AllValid(t)
    ensures AllValid([y] + t)
    ensures OfKey([y] + t, k) == (if KeyOf(y) == k then [y] else []) + OfKey(t, k)
  {
    assert ([y] + t)[1..] == t;
  }

  /** `OfKey` of a non-empty list, split at its first line. */
  lemma OfKeyFront(ys: seq<string>, k: Key)
    requires |ys| > 0 && AllValid(ys)
    ensures AllValid(ys[1..])
    ensures OfKey(ys, k) == (if KeyOf(ys[0]) == k then [ys[0]] else []) + OfKey(ys[1..], k)
  {
  }

  /** Two fronts of which at least one is empty can go in either order. */
  lemma SwapFronts(a: seq<string>, b: seq<string>, t: seq<string>)
    requires a == [] || b == []
    ensures b + (a + t) == a + (b + t)
  {
    if a == [] {
      assert a + t == t && a + (b + t) == b + t;
    } else {
      assert b + (a + t) == a + t && b + t == t;
    }
  }

  /** Inserting `x` puts it in front of every line with its key, and leaves
      the lines of every other key in their order. */
  lemma {:induction false} InsertOfKey(x: string, ys: seq<string>, k: Key)
    requires Valid(x) && AllValid(ys) && SortedBy(ys, false)
    ensures OfKey(InsertBy(x, ys, false), k) == (if KeyOf(x) == k then [x] else []) + OfKey(ys, k)
    decreases |ys|
  {
    if |ys| == 0 || Before(x, ys[0], false) {
      assert InsertBy(x, ys, false) == [x] + ys;
      OfKeyCons(x, ys, k);
    } else {
      SortedTail(ys, false);
      var rest := InsertBy(x, ys[1..], false);
      assert InsertBy(x, ys, false) == [ys[0]] + rest;
      var cx := if KeyOf(x) == k then [x] else [];
      var cy := if KeyOf(ys[0]) == k then [ys[0]] else [];
      var t := OfKey(ys[1..], k);
      InsertOfKey(x, ys[1..], k);
      OfKeyCons(ys[0], rest, k);
      OfKeyFront(ys, k);
      assert cx == [] || cy == [] by {
        KeyLeTotal(KeyOf(x), KeyOf(x));
      }
      SwapFronts(cx, cy, t);
    }
  }

  /** `sorted` is stable: for every key, the lines with that key come out in
      the order they went in, whatever the other lines are. */
  lemma {:induction false} SortStable(xs: seq<string>, k: Key)
    requires AllValid(xs)
    ensures OfKey(SortBy(xs, false), k) == OfKey(xs, k)
    decreases |xs|
  {
    if |xs| > 0 {
      assert xs == [xs[0]] + xs[1..];
      SortStable(xs[1..], k);
      InsertOfKey(xs[0], SortBy(xs[1..], false), k);
    }
  }

  /** When every line has the same key the stable sort leaves the lines as
      they are. */
  lemma SortEqualKeys(xs: seq<string>)
    requires AllValid(xs)
    requires forall i :: 0 <= i < |xs| ==> KeyOf(xs[i]) == KeyOf(xs[0])
    ensures SortBy(xs, false) == xs
  {
    assert SortedBy(xs, false) by {
      forall i | 0 <= i < |xs| - 1 ensures Before(xs[i], xs[i + 1], false) {
        assert KeyOf(xs[i]) == KeyOf(xs[0]) && KeyOf(xs[i + 1]) == KeyOf(xs[0]);
      }
    }
    SortSorted(xs);
  }

  // ---------------------------------------------------------------------
  // Dropping repeats

  /** The printing loop: a line is printed unless it equals the line printed
      just before it (`prev_line`, initially `None`). */
  function DropRepeats(xs: seq<string>, prev: Option<string>): (r: seq<string>)
    ensures forall i :: 0 <= i < |r| - 1 ==> r[i] != r[i + 1]
    ensures prev.Some? && |r| > 0 ==> r[0] != prev.value
    ensures forall y :: y in r ==> y in xs
    ensures forall y :: y in xs ==> y in r || prev == Some(y)
    decreases |xs|
  {
    if |xs| == 0 then []
    else if prev == Some(xs[0]) then DropRepeats(xs[1..], prev)
    else
      var rest := DropRepeats(xs[1..], Some(xs[0]));
      assert forall y :: y in xs ==> y == xs[0] || y in xs[1..];
      [xs[0]] + rest
  }

  /** The line the printing loop compares `xs[i]` with: `prev` at the start,
      and otherwise the line before it, which is either printed or equal to
      the one printed. */
  function Predecessor(xs: seq<string>, prev: Option<string>, i: nat): Option<string>
    requires i < |xs|
  {
    if i == 0 then prev else Some(xs[i - 1])
  }

  /** For each position, whether its line differs from its predecessor. */
  function Changed(xs: seq<string>, prev: Option<string>): (m: seq<bool>)
    ensures |m| == |xs|
  {
    seq(|xs|, i requires 0 <= i < |xs| => Predecessor(xs, prev, i) != Some(xs[i]))
  }

  /** The lines at the positions `mask` marks, in order. */
  function Select(xs: seq<string>, mask: seq<bool>): seq<string>
    requires |mask| == |xs|
    decreases |xs|
  {
    if |xs| == 0 then []
    else (if mask[0] then [xs[0]] else []) + Select(xs[1..], mask[1..])
  }

  /** The printed lines are exactly the input lines that differ from the
      line before them (from `prev` for the first), in input order. */
  lemma {:induction false} DropRepeatsSelects(xs: seq<string>, prev: Option<string>)
    ensures DropRepeats(xs, prev) == Select(xs, Changed(xs, prev))
    decreases |xs|
  {
    if |xs| > 0 {
      var t := xs[1..];
      var next := Some(xs[0]);
      var m := Changed(xs, prev);
      assert m[1..] == Changed(t, next) by {
        forall i | 0 <= i < |t| ensures m[1..][i] == Changed(t, next)[i] {
          assert Predecessor(xs, prev, i + 1) == Predecessor(t, next, i);
        }
      }
      DropRepeatsSelects(t, next);
    }
  }

  /** Dropping repeats keeps the order of what it keeps. */
  lemma {:induction false} DropRepeatsOrdered(xs: seq<string>, prev: Option<string>, tie: bool)
    requires AllValid(xs) && OrderedBy(xs, tie)
    ensures AllValid(DropRepeats(xs, prev)) && OrderedBy(DropRepeats(xs, prev), tie)
    decreases |xs|
  {
    if |xs| > 0 {
      var t := xs[1..];
      OrderedTail(xs, tie);
      var next := if prev == Some(xs[0]) then prev else Some(xs[0]);
      DropRepeatsOrdered(t, next, tie);
      if prev != Some(xs[0]) {
        var rest := DropRepeats(t, next);
        assert DropRepeats(xs, prev) == [xs[0]] + rest;
        ConsOrdered(xs[0], rest, tie);
      }
    }
  }

  /** The tail of an ordered list is ordered and comes after its head. */
  lemma OrderedTail(xs: seq<string>, tie: bool)
    requires |xs| > 0 && AllValid(xs) && OrderedBy(xs, tie)
    ensures AllValid(xs[1..]) && OrderedBy(xs[1..], tie)
    ensures forall y :: y in xs[1..] ==> Before(xs[0], y, tie)
  {
    var t := xs[1..];
    forall i, j | 0 <= i < j < |t| ensures Before(t[i], t[j], tie) {
      assert t[i] == xs[i + 1] && t[j] == xs[j + 1];
    }
    forall y | y in t ensures Before(xs[0], y, tie) {
      var k :| 0 <= k < |t| && t[k] == y;
      assert xs[k + 1] == y;
    }
  }

  /** A line that comes before all of an ordered list can go in front. */
  lemma ConsOrdered(x: string, rest: seq<string>, tie: bool)
    requires Valid(x) && AllValid(rest) && OrderedBy(rest, tie)
    requires forall y :: y in rest ==> Before(x, y, tie)
    ensures AllValid([x] + rest) && OrderedBy([x] + rest, tie)
  {
    var r := [x] + rest;
    forall i, j | 0 <= i < j < |r| ensures Before(r[i], r[j], tie) {
      assert r[j] == rest[j - 1];
      if i > 0 {
        assert r[i] == rest[i - 1];
      }
    }
  }

  /** Without adjacent repeats nothing is dropped. */
  lemma {:induction false} DropRepeatsOfFresh(xs: seq<string>, prev: Option<string>)
    requires forall i :: 0 <= i < |xs| - 1 ==> xs[i] != xs[i + 1]
    requires |xs| > 0 ==> prev != Some(xs[0])
    ensures DropRepeats(xs, prev) == xs
    decreases |xs|
  {
    if |xs| > 0 {
      var t := xs[1..];
      forall i | 0 <= i < |t| - 1 ensures t[i] != t[i + 1] {
        assert t[i] == xs[i + 1] && t[i + 1] == xs[i + 2];
      }
      DropRepeatsOfFresh(t, Some(xs[0]));
      assert [xs[0]] + t == xs;
    }
  }

  // ---------------------------------------------------------------------
  // The whole program

  /** What `sort.py` writes: the sorted lines to standard output, the
      rejected ones to standard error. */
  datatype Outcome = Outcome(printed: seq<string>, rejected: seq<string>)

  /** The pipeline, with or without ties broken by the line. */
  function Run(lines: seq<string>, tie: bool): Outcome
  {
    Outcome(DropRepeats(SortBy(Kept(Stripped(lines)), tie), None), Rejected(Stripped(lines)))
  }

  /** `process_file` of `sort.py`. */
  function SortFile(lines: seq<string>): (o: Outcome)
    ensures forall k :: 0 <= k < |o.rejected| ==> !Valid(o.rejected[k])
    ensures forall i :: 0 <= i < |o.printed| - 1 ==> o.printed[i] != o.printed[i + 1]
  {
    Run(lines, false)
  }

  /** The printed lines are the valid stripped input lines, each at least
      once. */
  lemma SortFileMembers(lines: seq<string>, y: string)
    ensures y in SortFile(lines).printed <==> Valid(y) && y in Stripped(lines)
  {
    var kept := Kept(Stripped(lines));
    FilterPartition(Stripped(lines));
    assert y in SortBy(kept, false) <==> y in multiset(kept);
    assert y in Stripped(lines) <==> y in multiset(kept) + multiset(Rejected(Stripped(lines)));
  }

  /** The printed lines are in key order. */
  lemma SortFileOrdered(lines: seq<string>)
    ensures AllValid(SortFile(lines).printed)
    ensures forall i, j :: 0 <= i < j < |SortFile(lines).printed| ==>
      KeyLe(KeyOf(SortFile(lines).printed[i]), KeyOf(SortFile(lines).printed[j]))
  {
    var sorted := SortBy(Kept(Stripped(lines)), false);
    SortedIsOrdered(sorted, false);
    DropRepeatsOrdered(sorted, None, false);
  }

  /** Valid lines already in key order, none equal to the next, pass the
      sort and the repeat filter unchanged. */
  lemma SortedPasses(xs: seq<string>)
    requires AllValid(xs) && SortedBy(xs, false)
    requires forall i :: 0 <= i < |xs| - 1 ==> xs[i] != xs[i + 1]
    ensures DropRepeats(SortBy(xs, false), None) == xs
  {
    SortSorted(xs);
    DropRepeatsOfFresh(xs, None);
  }

  /** Valid lines are never rejected. */
  lemma RejectedNone(xs: seq<string>)
    requires AllValid(xs)
    ensures Rejected(xs) == []
  {
    KeptAllValid(xs);
    FilterPartition(xs);
    assert |multiset(Rejected(xs))| == 0;
  }

  /** Trimmed valid lines already in key order, none equal to the next,
      come out as they went in, and nothing is rejected. */
  lemma SortFileOfSorted(lines: seq<string>)
    requires forall i :: 0 <= i < |lines| ==> Trimmed(lines[i])
    requires AllValid(lines) && SortedBy(lines, false)
    requires forall i :: 0 <= i < |lines| - 1 ==> lines[i] != lines[i + 1]
    ensures SortFile(lines).printed == lines
    ensures SortFile(lines).rejected == []
  {
    StrippedUnchanged(lines);
    KeptAllValid(lines);
    SortedPasses(lines);
    RejectedNone(lines);
  }

  /** Stripping leaves nothing to strip. */
  lemma StripTrimmed(s: string)
    ensures Trimmed(Strip(s))
  {
  }

  /** Running `sort.py` on its own output changes nothing. */
  lemma SortFileIdempotent(lines: seq<string>)
    ensures SortFile(SortFile(lines).printed).printed == SortFile(lines).printed
    ensures SortFile(SortFile(lines).printed).rejected == []
  {
    var out := SortFile(lines).printed;
    SortFileOrdered(lines);
    forall i | 0 <= i < |out| ensures Trimmed(out[i]) {
      SortFileMembers(lines, out[i]);
      var k :| 0 <= k < |Stripped(lines)| && Stripped(lines)[k] == out[i];
      StripTrimmed(lines[k]);
    }
    assert SortedBy(out, false) by {
      forall i | 0 <= i < |out| - 1 ensures Before(out[i], out[i + 1], false) {
        assert KeyLe(KeyOf(out[i]), KeyOf(out[i + 1]));
      }
    }
    SortFileOfSorted(out);
  }

  // ---------------------------------------------------------------------
  // Repeats that are not neighbours

  /** A stripped line whose translation is one word. */
  lemma OneWordLine(original: string, word: string)
    requires Tab !in original && Tab !in word
    requires IsWord(original) && IsWord(word)
    ensures Valid(original + [Tab] + word)
    ensures KeyOf(original + [Tab] + word) == Key(original, 1, |word|)
  {
    var line := original + [Tab] + word;
    assert Valid(line) && KeyOf(line) == Key(original, |Words(word)|, |word|) by {
      KeyOfFields(original, word);
    }
    assert |Words(word)| == 1 by { WordAlone(word); }
  }

  /** Valid lines whose keys all tie and with no line equal to the next
      pass the sort and the repeat filter unchanged. */
  lemma TiedRunUnchanged(xs: seq<string>)
    requires AllValid(xs)
    requires forall i :: 0 <= i < |xs| ==> KeyOf(xs[i]) == KeyOf(xs[0])
    requires forall i :: 0 <= i < |xs| - 1 ==> xs[i] != xs[i + 1]
    ensures DropRepeats(SortBy(xs, false), None) == xs
  {
    SortEqualKeys(xs);
    DropRepeatsOfFresh(xs, None);
  }

  /** Two different valid lines with tied keys, the first repeated after
      the second, pass the sort and the repeat filter unchanged. */
  lemma TiedTriple(a: string, b: string)
    requires Valid(a) && Valid(b) && KeyOf(a) == KeyOf(b) && a != b
    ensures AllValid([a, b, a])
    ensures DropRepeats(SortBy([a, b, a], false), None) == [a, b, a]
  {
    var lines := [a, b, a];
    forall i | 0 <= i < |lines| ensures KeyOf(lines[i]) == KeyOf(lines[0]) {
      assert lines[i] == a || lines[i] == b;
    }
    forall i | 0 <= i < |lines| - 1 ensures lines[i] != lines[i + 1] {
      assert lines[i] == a || lines[i + 1] == a;
    }
    TiedRunUnchanged(lines);
  }

  /** As written, a line printed once can be printed again later: the sort
      keeps lines with equal keys in input order, and only a line equal to
      its neighbour is dropped. */
  lemma SortFileRepeatsLine(a: string, b: string)
    requires Trimmed(a) && Trimmed(b)
    requires Valid(a) && Valid(b) && KeyOf(a) == KeyOf(b) && a != b
    ensures SortFile([a, b, a]).printed == [a, b, a]
  {
    TiedTriple(a, b);
    StrippedUnchanged([a, b, a]);
    KeptAllValid([a, b, a]);
  }

  /** Two translations of one word and of the same length tie. */
  lemma OneWordLinesTie(o: string, t1: string, t2: string)
    requires Tab !in o && Tab !in t1 && Tab !in t2
    requires IsWord(o) && IsWord(t1) && IsWord(t2)
    requires |t1| == |t2|
    ensures Valid(o + [Tab] + t1) && Valid(o + [Tab] + t2)
    ensures KeyOf(o + [Tab] + t1) == KeyOf(o + [Tab] + t2)
  {
    OneWordLine(o, t1);
    OneWordLine(o, t2);
  }

  /** The three lines of the smallest instance are trimmed, the two lines
      differ, and both are one-word translations of `a`. */
  lemma ExampleLines()
    ensures "a\tbc" == "a" + [Tab] + "bc" && "a\tde" == "a" + [Tab] + "de"
    ensures Trimmed("a\tbc") && Trimmed("a\tde") && "a\tbc" != "a\tde"
  {
    assert "a\tbc"[3] != "a\tde"[3];
  }

  /** The smallest instance: `a<TAB>bc`, `a<TAB>de`, `a<TAB>bc`. */
  lemma SortFileRepeatsExample()
    ensures SortFile(["a\tbc", "a\tde", "a\tbc"]).printed == ["a\tbc", "a\tde", "a\tbc"]
  {
    var a, b := "a\tbc", "a\tde";
    ExampleLines();
    assert IsWord("a") && IsWord("bc") && IsWord("de");
    OneWordLinesTie("a", "bc", "de");
    SortFileRepeatsLine(a, b);
  }

  /** Ordered by key and line, with no neighbour repeated, no line repeats. */
  lemma {:induction false} OrderedDistinct(xs: seq<string>)
    requires AllValid(xs) && OrderedBy(xs, true)
    requires forall i :: 0 <= i < |xs| - 1 ==> xs[i] != xs[i + 1]
    ensures forall i, j :: 0 <= i < j < |xs| ==> xs[i] != xs[j]
  {
    forall i, j | 0 <= i < j < |xs| ensures xs[i] != xs[j] {
      if j > i + 1 && xs[i] == xs[j] {
        assert Before(xs[i + 1], xs[j], true);
        assert Before(xs[i], xs[i + 1], true);
        BeforeAntisymmetric(xs[i], xs[i + 1]);
      }
    }
  }

  /** The corrected program: lines with equal keys are ordered by the whole
      line, so equal lines end up next to each other and every repeat is
      dropped. */
  function SortFileUnique(lines: seq<string>): (o: Outcome)
    ensures forall k :: 0 <= k < |o.rejected| ==> !Valid(o.rejected[k])
    ensures forall i, j :: 0 <= i < j < |o.printed| ==> o.printed[i] != o.printed[j]
  {
    var o := Run(lines, true);
    var sorted := SortBy(Kept(Stripped(lines)), true);
    SortedIsOrdered(sorted, true);
    DropRepeatsOrdered(sorted, None, true);
    OrderedDistinct(o.printed);
    o
  }

  /** The corrected program prints the same lines, still in key order. */
  lemma SortFileUniqueAgrees(lines: seq<string>, y: string)
    ensures y in SortFileUnique(lines).printed <==> y in SortFile(lines).printed
    ensures AllValid(SortFileUnique(lines).printed)
    ensures forall i, j :: 0 <= i < j < |SortFileUnique(lines).printed| ==>
      KeyLe(KeyOf(SortFileUnique(lines).printed[i]), KeyOf(SortFileUnique(lines).printed[j]))
  {
    var kept := Kept(Stripped(lines));
    SortFileMembers(lines, y);
    assert y in SortBy(kept, true) <==> y in multiset(kept);
    var sorted := SortBy(kept, true);
    SortedIsOrdered(sorted, true);
    DropRepeatsOrdered(sorted, None, true);
  }
}
