/**
 * The title normaliser of the AI service (`formatTaskTitle` in
 * src/services/ai.service.ts): underscores and hyphens become spaces,
 * whitespace runs collapse to one space, the ends are trimmed, and every
 * space-separated word is capitalised.
 */
module TitleFormat {
  import opened Text

  /** A character the normaliser treats as a word boundary. */
  predicate IsSeparator(c: char) {
    IsSpace(c) || c == '_' || c == '-'
  }

  /**
   * The word characters of `s` in order, folded to lower case: what
   * normalisation must keep, whatever it does to separators and case.
   */
  function Squash(s: string): string
    decreases |s|
  {
    if |s| == 0 then ""
    else (if IsSeparator(s[0]) then "" else [Lower(s[0])]) + Squash(s[1..])
  }

  lemma {:induction false} SquashAppend(a: string, b: string)
    ensures Squash(a + b) == Squash(a) + Squash(b)
    decreases |a|
  {
    if |a| == 0 {
      assert a + b == b;
    } else {
      var head := if IsSeparator(a[0]) then "" else [Lower(a[0])];
      assert (a + b)[0] == a[0];
      assert (a + b)[1..] == a[1..] + b;
      SquashAppend(a[1..], b);
      assert Squash(a + b) == head + (Squash(a[1..]) + Squash(b));
    }
  }

  lemma {:induction false} SquashEmpty(s: string)
    ensures Squash(s) == "" <==> forall i :: 0 <= i < |s| ==> IsSeparator(s[i])
    decreases |s|
  {
    if |s| > 0 {
      SquashEmpty(s[1..]);
      assert forall i :: 1 <= i < |s| ==> s[i] == s[1..][i - 1];
    }
  }

  /** Strings that agree position by position on separators and on folded case squash alike. */
  lemma {:induction false} SquashPointwise(a: string, b: string)
    requires |a| == |b|
    requires forall i :: 0 <= i < |a| ==> IsSeparator(a[i]) == IsSeparator(b[i])
    requires forall i :: 0 <= i < |a| && !IsSeparator(a[i]) ==> Lower(a[i]) == Lower(b[i])
    ensures Squash(a) == Squash(b)
    decreases |a|
  {
    if |a| > 0 {
      assert forall i :: 1 <= i < |a| ==> a[1..][i - 1] == a[i] && b[1..][i - 1] == b[i];
      SquashPointwise(a[1..], b[1..]);
    }
  }

  // ----- Words: the maximal runs between breaks -----

  /** A break: whitespace, and also `_` and `-` when `dashes` holds. */
  predicate IsBreak(c: char, dashes: bool) {
    IsSpace(c) || (dashes && (c == '_' || c == '-'))
  }

  /** A non-empty string none of whose characters is a break. */
  predicate IsRun(w: string, dashes: bool) {
    |w| > 0 && forall i :: 0 <= i < |w| ==> !IsBreak(w[i], dashes)
  }

  /**
   * The runs after a non-break character `c` is put in front of a string
   * whose runs are `ws`: `c` starts a new run, or joins the first one when
   * the string itself starts with a non-break.
   */
  function Push(c: char, joins: bool, ws: seq<string>): (r: seq<string>)
    requires joins ==> |ws| > 0
    ensures |r| > 0
  {
    if joins then [[c] + ws[0]] + ws[1..] else [[c]] + ws
  }

  /** Pushing in front of a concatenation only touches its first part. */
  lemma PushAppend(c: char, joins: bool, a: seq<string>, b: seq<string>)
    requires joins ==> |a| > 0
    ensures Push(c, joins, a + b) == Push(c, joins, a) + b
  {
    if joins {
      assert (a + b)[0] == a[0] && (a + b)[1..] == a[1..] + b;
    }
  }

  /** The maximal runs of non-break characters of `s`, in order. */
  function Runs(s: string, dashes: bool): (ws: seq<string>)
    ensures |s| > 0 && !IsBreak(s[0], dashes) ==> |ws| > 0
    decreases |s|
  {
    if |s| == 0 then []
    else if IsBreak(s[0], dashes) then Runs(s[1..], dashes)
    else Push(s[0], |s| > 1 && !IsBreak(s[1], dashes), Runs(s[1..], dashes))
  }

  /**
   * The words of a title: its maximal runs of characters that are neither
   * whitespace, `_` nor `-`.
   */
  function Words(title: string): (ws: seq<string>)
    ensures forall k :: 0 <= k < |ws| ==> IsRun(ws[k], true)
  {
    RunsAreRuns(title, true);
    Runs(title, true)
  }

  /** Every run is non-empty and free of breaks. */
  lemma {:induction false} RunsAreRuns(s: string, dashes: bool)
    ensures forall k :: 0 <= k < |Runs(s, dashes)| ==> IsRun(Runs(s, dashes)[k], dashes)
    decreases |s|
  {
    if |s| > 0 {
      RunsAreRuns(s[1..], dashes);
      var rest := Runs(s[1..], dashes);
      if !IsBreak(s[0], dashes) && |s| > 1 && !IsBreak(s[1], dashes) {
        var w := [s[0]] + rest[0];
        assert IsRun(rest[0], dashes);
        assert forall i :: 1 <= i < |w| ==> w[i] == rest[0][i - 1];
        assert IsRun(w, dashes);
      }
    }
  }

  /** How the runs of a string change when one character is put in front of it. */
  lemma RunsCons(c: char, y: string, dashes: bool)
    ensures Runs([c] + y, dashes) ==
      if IsBreak(c, dashes) then Runs(y, dashes)
      else Push(c, |y| > 0 && !IsBreak(y[0], dashes), Runs(y, dashes))
  {
    var s := [c] + y;
    assert s[0] == c && s[1..] == y;
    if |y| > 0 {
      assert s[1] == y[0];
    }
  }

  /** A string has no runs exactly when all its characters are breaks. */
  lemma {:induction false} RunsEmpty(s: string, dashes: bool)
    ensures Runs(s, dashes) == [] <==> forall i :: 0 <= i < |s| ==> IsBreak(s[i], dashes)
    decreases |s|
  {
    if |s| > 0 {
      RunsEmpty(s[1..], dashes);
      assert forall i :: 1 <= i < |s| ==> s[i] == s[1..][i - 1];
    }
  }

  /** A single run is its own only run. */
  lemma {:induction false} RunsOfRun(w: string, dashes: bool)
    requires IsRun(w, dashes)
    ensures Runs(w, dashes) == [w]
    decreases |w|
  {
    var t := w[1..];
    assert w == [w[0]] + t;
    RunsCons(w[0], t, dashes);
    if |w| > 1 {
      assert forall i :: 0 <= i < |t| ==> t[i] == w[i + 1];
      RunsOfRun(t, dashes);
      assert [w[0]] + t == w;
    } else {
      assert t == [] && Runs(t, dashes) == [];
      assert [w[0]] == w;
    }
  }

  /** A break at the seam keeps the runs of the two halves apart. */
  lemma {:induction false} RunsAppend(a: string, b: string, dashes: bool)
    requires (|a| > 0 && IsBreak(a[|a| - 1], dashes)) || (|b| > 0 && IsBreak(b[0], dashes))
    ensures Runs(a + b, dashes) == Runs(a, dashes) + Runs(b, dashes)
    decreases |a|
  {
    if |a| == 0 {
      assert a + b == b;
    } else {
      var c, t := a[0], a[1..];
      assert a == [c] + t;
      assert a + b == [c] + (t + b);
      if |t| == 0 {
        assert t + b == b;
        RunsCons(c, b, dashes);
        RunsCons(c, t, dashes);
      } else {
        assert t[|t| - 1] == a[|a| - 1];
        RunsAppend(t, b, dashes);
        RunsAppendStep(c, t, b, dashes);
      }
    }
  }

  /** Putting a character in front commutes with appending, once the tail's runs are known. */
  lemma RunsAppendStep(c: char, t: string, b: string, dashes: bool)
    requires |t| > 0
    requires Runs(t + b, dashes) == Runs(t, dashes) + Runs(b, dashes)
    ensures Runs([c] + (t + b), dashes) == Runs([c] + t, dashes) + Runs(b, dashes)
  {
    assert (t + b)[0] == t[0];
    RunsCons(c, t + b, dashes);
    RunsCons(c, t, dashes);
    if !IsBreak(c, dashes) {
      PushAppend(c, !IsBreak(t[0], dashes), Runs(t, dashes), Runs(b, dashes));
    }
  }

  /**
   * Strings that break at the same positions, each by its own notion of a
   * break, and agree everywhere else have the same runs.
   */
  lemma {:induction false} RunsPointwise(a: string, p: bool, b: string, q: bool)
    requires |a| == |b|
    requires forall i :: 0 <= i < |a| ==> IsBreak(a[i], p) == IsBreak(b[i], q)
    requires forall i :: 0 <= i < |a| && !IsBreak(a[i], p) ==> a[i] == b[i]
    ensures Runs(a, p) == Runs(b, q)
    decreases |a|
  {
    if |a| > 0 {
      assert forall i :: 1 <= i < |a| ==> a[1..][i - 1] == a[i] && b[1..][i - 1] == b[i];
      RunsPointwise(a[1..], p, b[1..], q);
    }
  }

  predicate NoUnderscoreOrHyphen(s: string) {
    forall i :: 0 <= i < |s| ==> s[i] != '_' && s[i] != '-'
  }

  /** The only whitespace is `' '`, and no two spaces are adjacent. */
  predicate SingleSpaced(s: string) {
    && (forall i :: 0 <= i < |s| && IsSpace(s[i]) ==> s[i] == ' ')
    && (forall i :: 0 < i < |s| && s[i] == ' ' ==> s[i - 1] != ' ')
  }

  /** No whitespace at either end. */
  predicate Trimmed(s: string) {
    |s| > 0 ==> !IsSpace(s[0]) && !IsSpace(s[|s| - 1])
  }

  /** Every space-separated word is upper case first and lower case after. */
  predicate Capitalized(s: string) {
    forall i :: 0 <= i < |s| ==> s[i] == CaseAt(s, i)
  }

  /** The shape of every title the normaliser produces. */
  predicate Formatted(s: string) {
    NoUnderscoreOrHyphen(s) && SingleSpaced(s) && Trimmed(s) && Capitalized(s)
  }

  /** `title.replace(/[_-]/g, ' ')`. */
  function ReplaceSeparators(s: string): (r: string)
    ensures |r| == |s|
  {
    seq(|s|, i requires 0 <= i < |s| => if s[i] == '_' || s[i] == '-' then ' ' else s[i])
  }

  /**
   * Replacing writes a `' '` over every `_` and `-` and keeps every other
   * character as it is, so the runs of non-whitespace characters in the
   * result are the words of the input.
   */
  lemma ReplaceSeparatorsSpaces(s: string)
    ensures var r := ReplaceSeparators(s);
      && (forall i :: 0 <= i < |s| && (s[i] == '_' || s[i] == '-') ==> r[i] == ' ')
      && (forall i :: 0 <= i < |s| && s[i] != '_' && s[i] != '-' ==> r[i] == s[i])
      && NoUnderscoreOrHyphen(r)
      && (forall i :: 0 <= i < |s| ==> IsSeparator(s[i]) == IsSpace(r[i]))
      && Squash(r) == Squash(s)
      && Runs(r, false) == Words(s)
  {
    var r := ReplaceSeparators(s);
    SquashPointwise(r, s);
    RunsPointwise(r, false, s, true);
  }

  /** `s` with its leading whitespace removed (`trimStart`). */
  function SkipSpaces(s: string): (r: string)
    ensures |r| <= |s|
    decreases |s|
  {
    if |s| > 0 && IsSpace(s[0]) then SkipSpaces(s[1..]) else s
  }

  /** What `SkipSpaces` removes is a whitespace prefix, and what it keeps starts with a non-space. */
  lemma {:induction false} SkipSpacesPrefix(s: string)
    ensures var r := SkipSpaces(s);
      && r == s[|s| - |r|..]
      && (forall i :: 0 <= i < |s| - |r| ==> IsSpace(s[i]))
      && (|r| > 0 ==> !IsSpace(r[0]))
      && Squash(r) == Squash(s)
    decreases |s|
  {
    if |s| > 0 && IsSpace(s[0]) {
      var tail := s[1..];
      var r := SkipSpaces(tail);
      SkipSpacesPrefix(tail);
      assert tail[|tail| - |r|..] == s[|s| - |r|..];
      forall i | 0 < i < |s| - |r|
        ensures IsSpace(s[i])
      {
        assert s[i] == tail[i - 1];
      }
      assert s == [s[0]] + tail;
      SquashAppend([s[0]], tail);
    }
  }

  /** Leading whitespace is no part of any word. */
  lemma {:induction false} SkipSpacesRuns(s: string)
    ensures Runs(SkipSpaces(s), false) == Runs(s, false)
    decreases |s|
  {
    if |s| > 0 && IsSpace(s[0]) {
      SkipSpacesRuns(s[1..]);
    }
  }

  /** `s` with its trailing whitespace removed (`trimEnd`). */
  function TrimEnd(s: string): (r: string)
    ensures |r| <= |s|
    decreases |s|
  {
    if |s| > 0 && IsSpace(s[|s| - 1]) then TrimEnd(s[..|s| - 1]) else s
  }

  /** What `TrimEnd` removes is a whitespace suffix, and what it keeps ends with a non-space. */
  lemma {:induction false} TrimEndSuffix(s: string)
    ensures var r := TrimEnd(s);
      && r == s[..|r|]
      && (forall i :: |r| <= i < |s| ==> IsSpace(s[i]))
      && (|r| > 0 ==> !IsSpace(r[|r| - 1]))
      && Squash(r) == Squash(s)
    decreases |s|
  {
    if |s| > 0 && IsSpace(s[|s| - 1]) {
      var init := s[..|s| - 1];
      var r := TrimEnd(init);
      TrimEndSuffix(init);
      assert init[..|r|] == s[..|r|];
      forall i | |r| <= i < |s| - 1
        ensures IsSpace(s[i])
      {
        assert s[i] == init[i];
      }
      assert s == init + [s[|s| - 1]];
      SquashAppend(init, [s[|s| - 1]]);
    }
  }

  /** Trailing whitespace is no part of any word. */
  lemma {:induction false} TrimEndRuns(s: string)
    ensures Runs(TrimEnd(s), false) == Runs(s, false)
    decreases |s|
  {
    if |s| > 0 && IsSpace(s[|s| - 1]) {
      var init := s[..|s| - 1];
      var last := [s[|s| - 1]];
      TrimEndRuns(init);
      assert s == init + last;
      RunsAppend(init, last, false);
      RunsEmpty(last, false);
    }
  }

  /** `s.trim()`. */
  function Trim(s: string): (r: string)
    ensures |r| <= |s|
  {
    TrimEnd(SkipSpaces(s))
  }

  /**
   * Trimming leaves no whitespace at either end, keeps the word characters,
   * keeps single spacing and the absence of `_` and `-`, and changes nothing
   * in a string that is already trimmed.
   */
  lemma TrimTrims(s: string)
    ensures var r := Trim(s);
      && Trimmed(r)
      && Squash(r) == Squash(s)
      && (SingleSpaced(s) ==> SingleSpaced(r))
      && (NoUnderscoreOrHyphen(s) ==> NoUnderscoreOrHyphen(r))
      && (Trimmed(s) ==> r == s)
  {
    var head := SkipSpaces(s);
    SkipSpacesPrefix(s);
    TrimEndSuffix(head);
    TrimSlice(s, head, TrimEnd(head));
  }

  /** Trimming removes no word and splits none. */
  lemma TrimKeepsRuns(s: string)
    ensures Runs(Trim(s), false) == Runs(s, false)
  {
    SkipSpacesRuns(s);
    TrimEndRuns(SkipSpaces(s));
  }

  /** What is left between a whitespace prefix and a whitespace suffix of `s` is a trimmed slice of it. */
  lemma TrimSlice(s: string, head: string, r: string)
    requires |head| <= |s| && head == s[|s| - |head|..]
    requires forall i :: 0 <= i < |s| - |head| ==> IsSpace(s[i])
    requires |head| > 0 ==> !IsSpace(head[0])
    requires |r| <= |head| && r == head[..|r|]
    requires forall i :: |r| <= i < |head| ==> IsSpace(head[i])
    requires |r| > 0 ==> !IsSpace(r[|r| - 1])
    ensures Trimmed(r)
    ensures SingleSpaced(s) ==> SingleSpaced(r)
    ensures NoUnderscoreOrHyphen(s) ==> NoUnderscoreOrHyphen(r)
    ensures Trimmed(s) ==> r == s
  {
    var lo := |s| - |head|;
    assert r == s[lo..lo + |r|];
    SliceKeepsSpacing(s, lo, lo + |r|);
    if Trimmed(s) && |s| > 0 {
      assert head == s;
      assert r == s;
    }
  }

  /** Any slice of a single-spaced string without `_` or `-` has neither either. */
  lemma SliceKeepsSpacing(s: string, lo: int, hi: int)
    requires 0 <= lo <= hi <= |s|
    ensures SingleSpaced(s) ==> SingleSpaced(s[lo..hi])
    ensures NoUnderscoreOrHyphen(s) ==> NoUnderscoreOrHyphen(s[lo..hi])
  {
    var t := s[lo..hi];
    assert forall i :: 0 <= i < |t| ==> t[i] == s[lo + i];
  }

  lemma ConsSingleSpaced(c: char, t: string)
    requires SingleSpaced(t)
    requires IsSpace(c) ==> c == ' '
    requires c == ' ' && |t| > 0 ==> !IsSpace(t[0])
    ensures SingleSpaced([c] + t)
  {
    var s := [c] + t;
    forall i | 0 < i < |s| && s[i] == ' '
      ensures s[i - 1] != ' '
    {
      if i > 1 {
        assert s[i] == t[i - 1] && s[i - 1] == t[i - 2];
      }
    }
  }

  lemma TailSingleSpaced(s: string)
    requires |s| > 0 && SingleSpaced(s)
    ensures SingleSpaced(s[1..])
    ensures |s| > 1 && s[0] == ' ' ==> !IsSpace(s[1])
  {
    var t := s[1..];
    forall i | 0 < i < |t| && t[i] == ' '
      ensures t[i - 1] != ' '
    {
      assert t[i] == s[i + 1] && t[i - 1] == s[i];
    }
  }

  /**
   * The facts `CollapseWhitespace` promises, for an input `s` and its result
   * `r`: the non-whitespace runs are the same, `r` holds one `' '` between
   * two of them, and a run of whitespace at either end of `s` is one `' '`
   * at that end of `r`.
   */
  predicate CollapsedFrom(s: string, r: string) {
    && SingleSpaced(r)
    && Runs(r, false) == Runs(s, false)
    && (|r| == 0 <==> |s| == 0)
    && (|s| > 0 ==> (IsSpace(r[0]) <==> IsSpace(s[0])))
    && (|s| > 0 ==> (IsSpace(r[|r| - 1]) <==> IsSpace(s[|s| - 1])))
    && (|s| > 0 && !IsSpace(s[0]) ==> r[0] == s[0])
    && Squash(r) == Squash(s)
    && (NoUnderscoreOrHyphen(s) ==> NoUnderscoreOrHyphen(r))
    && (SingleSpaced(s) ==> r == s)
  }

  /** A whitespace run at the front of `s` collapses to one space before the rest. */
  lemma CollapseSpaceStep(s: string, tail: string)
    requires |s| > 0 && IsSpace(s[0])
    requires CollapsedFrom(SkipSpaces(s[1..]), tail)
    ensures CollapsedFrom(s, [' '] + tail)
  {
    var rest := SkipSpaces(s[1..]);
    SkipSpacesPrefix(s[1..]);
    ConsSingleSpaced(' ', tail);
    CollapseSpaceSquash(s, tail);
    CollapseSpaceSeparators(s, rest, tail);
    CollapseSpaceTidy(s, rest, tail);
    CollapseSpaceRuns(s, tail);
  }

  /** Collapsing a leading whitespace run keeps the word characters. */
  lemma CollapseSpaceSquash(s: string, tail: string)
    requires |s| > 0 && IsSpace(s[0])
    requires Squash(tail) == Squash(s[1..])
    ensures Squash([' '] + tail) == Squash(s)
  {
    assert s == [s[0]] + s[1..];
    SquashAppend([s[0]], s[1..]);
    SquashAppend([' '], tail);
  }

  /** Collapsing a leading whitespace run adds no `_` or `-`. */
  lemma CollapseSpaceSeparators(s: string, rest: string, tail: string)
    requires |s| > 0 && IsSpace(s[0])
    requires |rest| <= |s| - 1 && rest == s[1..][|s| - 1 - |rest|..]
    requires NoUnderscoreOrHyphen(rest) ==> NoUnderscoreOrHyphen(tail)
    ensures NoUnderscoreOrHyphen(s) ==> NoUnderscoreOrHyphen([' '] + tail)
  {
    if NoUnderscoreOrHyphen(s) {
      assert rest == s[|s| - |rest|..];
      SliceKeepsSpacing(s, |s| - |rest|, |s|);
      NoUnderscoreOrHyphenCons(' ', tail);
    }
  }

  /** A single-spaced string that starts with whitespace starts with one `' '`, which collapsing keeps. */
  lemma CollapseSpaceTidy(s: string, rest: string, tail: string)
    requires |s| > 0 && IsSpace(s[0])
    requires |rest| <= |s| - 1 && rest == s[1..][|s| - 1 - |rest|..]
    requires forall i :: 0 <= i < |s| - 1 - |rest| ==> IsSpace(s[1..][i])
    requires SingleSpaced(rest) ==> tail == rest
    ensures SingleSpaced(s) ==> [' '] + tail == s
  {
    if SingleSpaced(s) {
      TailSingleSpaced(s);
      if |s| > 1 {
        assert !IsSpace(s[1..][0]);
      }
      assert rest == s[1..];
      assert [' '] + tail == [s[0]] + s[1..];
    }
  }

  /** The runs and the last character after a leading whitespace run collapses. */
  lemma CollapseSpaceRuns(s: string, tail: string)
    requires |s| > 0 && IsSpace(s[0])
    requires var rest := SkipSpaces(s[1..]);
      && rest == s[1..][|s| - 1 - |rest|..]
      && (forall i :: 0 <= i < |s| - 1 - |rest| ==> IsSpace(s[1..][i]))
      && Runs(tail, false) == Runs(rest, false)
      && (|tail| == 0 <==> |rest| == 0)
      && (|rest| > 0 ==> (IsSpace(tail[|tail| - 1]) <==> IsSpace(rest[|rest| - 1])))
    ensures Runs([' '] + tail, false) == Runs(s, false)
    ensures IsSpace(([' '] + tail)[|tail|]) <==> IsSpace(s[|s| - 1])
  {
    var rest := SkipSpaces(s[1..]);
    assert Runs([' '] + tail, false) == Runs(s, false) by {
      RunsCons(' ', tail, false);
      SkipSpacesRuns(s[1..]);
      assert s == [s[0]] + s[1..];
      RunsCons(s[0], s[1..], false);
    }
    if |rest| == 0 {
      assert |s| == 1 || s[|s| - 1] == s[1..][|s| - 2];
    } else {
      assert rest[|rest| - 1] == s[|s| - 1];
    }
  }

  lemma NoUnderscoreOrHyphenCons(c: char, t: string)
    requires c != '_' && c != '-'
    ensures NoUnderscoreOrHyphen(t) ==> NoUnderscoreOrHyphen([c] + t)
  {
    assert forall i :: 1 <= i < |[c] + t| ==> ([c] + t)[i] == t[i - 1];
  }

  /** A non-space character at the front of `s` is kept in place. */
  lemma CollapseWordStep(s: string, tail: string)
    requires |s| > 0 && !IsSpace(s[0])
    requires CollapsedFrom(s[1..], tail)
    ensures CollapsedFrom(s, [s[0]] + tail)
  {
    assert s == [s[0]] + s[1..];
    SquashAppend([s[0]], s[1..]);
    SquashAppend([s[0]], tail);
    ConsSingleSpaced(s[0], tail);
    if NoUnderscoreOrHyphen(s) {
      SliceKeepsSpacing(s, 1, |s|);
      NoUnderscoreOrHyphenCons(s[0], tail);
    }
    if SingleSpaced(s) {
      TailSingleSpaced(s);
    }
    var r := [s[0]] + tail;
    assert Runs(r, false) == Runs(s, false) by {
      RunsCons(s[0], s[1..], false);
      RunsCons(s[0], tail, false);
      if |tail| > 0 {
        assert IsSpace(tail[0]) <==> IsSpace(s[1..][0]);
      }
    }
    if |s| > 1 {
      assert r[|r| - 1] == tail[|tail| - 1] && s[|s| - 1] == s[1..][|s| - 2];
    }
  }

  /** `s.replace(/\s+/g, ' ')`: every maximal whitespace run becomes one space. */
  function CollapseWhitespace(s: string): (r: string)
    ensures |r| <= |s|
    decreases |s|
  {
    if |s| == 0 then ""
    else if IsSpace(s[0]) then [' '] + CollapseWhitespace(SkipSpaces(s[1..]))
    else [s[0]] + CollapseWhitespace(s[1..])
  }

  /** Collapsing keeps every other character, in order, and leaves single-spaced text alone. */
  lemma {:induction false} CollapseWhitespaceCollapses(s: string)
    ensures CollapsedFrom(s, CollapseWhitespace(s))
    decreases |s|
  {
    if |s| > 0 {
      if IsSpace(s[0]) {
        var rest := SkipSpaces(s[1..]);
        CollapseWhitespaceCollapses(rest);
        CollapseSpaceStep(s, CollapseWhitespace(rest));
      } else {
        CollapseWhitespaceCollapses(s[1..]);
        CollapseWordStep(s, CollapseWhitespace(s[1..]));
      }
    }
  }

  /** Two normalised titles joined by one space form a normalised title. */
  lemma JoinFormatted(a: string, b: string)
    requires Formatted(a) && Formatted(b) && |a| > 0 && |b| > 0
    ensures Formatted(a + " " + b)
  {
    var s := a + " " + b;
    JoinNoUnderscoreOrHyphen(a, b);
    assert s[0] == a[0] && s[|s| - 1] == b[|b| - 1];
    JoinSingleSpaced(a, b);
    JoinCapitalized(a, b);
  }

  lemma JoinNoUnderscoreOrHyphen(a: string, b: string)
    requires NoUnderscoreOrHyphen(a) && NoUnderscoreOrHyphen(b)
    ensures NoUnderscoreOrHyphen(a + " " + b)
  {
    var s := a + " " + b;
    var n := |a|;
    forall i | 0 <= i < |s|
      ensures s[i] != '_' && s[i] != '-'
    {
      if i < n {
        assert s[i] == a[i];
      } else if i > n {
        assert s[i] == b[i - n - 1];
      }
    }
  }

  lemma JoinSingleSpaced(a: string, b: string)
    requires SingleSpaced(a) && SingleSpaced(b) && Trimmed(a) && Trimmed(b) && |a| > 0 && |b| > 0
    ensures SingleSpaced(a + " " + b)
  {
    var s := a + " " + b;
    var n := |a|;
    forall i | 0 <= i < |s| && IsSpace(s[i])
      ensures s[i] == ' '
    {
      if i < n {
        assert s[i] == a[i];
      } else if i > n {
        assert s[i] == b[i - n - 1];
      }
    }
    assert s[n - 1] == a[n - 1] && s[n + 1] == b[0];
    forall i | 0 < i < |s| && s[i] == ' '
      ensures s[i - 1] != ' '
    {
      if i < n {
        assert s[i] == a[i] && s[i - 1] == a[i - 1];
      } else if i > n + 1 {
        assert s[i] == b[i - n - 1] && s[i - 1] == b[i - n - 2];
      }
    }
  }

  lemma JoinCapitalized(a: string, b: string)
    requires Capitalized(a) && Capitalized(b) && |a| > 0 && |b| > 0
    ensures Capitalized(a + " " + b)
  {
    var s := a + " " + b;
    var n := |a|;
    forall i | 0 <= i < |s|
      ensures s[i] == CaseAt(s, i)
    {
      if i < n {
        assert s[i] == a[i];
        if i > 0 {
          assert s[i - 1] == a[i - 1];
        }
        assert CaseAt(s, i) == CaseAt(a, i);
      } else if i == n + 1 {
        assert s[i] == b[0];
        assert CaseAt(s, i) == CaseAt(b, 0);
      } else if i > n + 1 {
        assert s[i] == b[i - n - 1] && s[i - 1] == b[i - n - 2];
        assert CaseAt(s, i) == CaseAt(b, i - n - 1);
      }
    }
  }

  /** Capitalising the words of a tidy string keeps it tidy and makes it `Formatted`. */
  lemma CapitalizeWordsFormats(s: string)
    requires NoUnderscoreOrHyphen(s) && SingleSpaced(s) && Trimmed(s)
    ensures Formatted(CapitalizeWords(s))
    ensures Squash(CapitalizeWords(s)) == Squash(s)
  {
    var r := CapitalizeWords(s);
    forall i | 0 <= i < |s|
      ensures (r[i] == ' ' <==> s[i] == ' ') && IsSpace(r[i]) == IsSpace(s[i])
      ensures r[i] != '_' && r[i] != '-' && Lower(r[i]) == Lower(s[i])
      ensures IsSeparator(r[i]) == IsSeparator(s[i])
    {
      CaseLaws(s[i]);
    }
    forall i | 0 <= i < |r|
      ensures r[i] == CaseAt(r, i)
    {
      CaseLaws(s[i]);
    }
    assert SingleSpaced(r);
    SquashPointwise(r, s);
  }

  /** A single-spaced, trimmed string is its whitespace runs joined by single spaces. */
  lemma {:induction false} TidyIsJoinedRuns(t: string)
    requires SingleSpaced(t) && Trimmed(t)
    ensures Join(Runs(t, false), " ") == t
    decreases |t|
  {
    if ' ' in t {
      var k := IndexOf(t, ' ');
      var w, rest := t[..k], t[k + 1..];
      TidySplit(t, k);
      TidyIsJoinedRuns(rest);
      var rs := Runs(rest, false);
      assert ([w] + rs)[0] == w && ([w] + rs)[1..] == rs;
    } else if |t| > 0 {
      assert IsRun(t, false);
      RunsOfRun(t, false);
    }
  }

  /** Cutting a tidy string at its first space leaves a word and a shorter tidy string. */
  lemma TidySplit(t: string, k: nat)
    requires SingleSpaced(t) && Trimmed(t)
    requires k < |t| && t[k] == ' ' && ' ' !in t[..k]
    ensures 0 < k < |t| - 1
    ensures SingleSpaced(t[k + 1..]) && Trimmed(t[k + 1..])
    ensures Runs(t, false) == [t[..k]] + Runs(t[k + 1..], false)
    ensures |Runs(t[k + 1..], false)| > 0
  {
    var w, rest := t[..k], t[k + 1..];
    assert IsRun(w, false) by {
      assert forall i :: 0 <= i < k ==> t[i] == w[i] && t[i] != ' ';
    }
    assert SingleSpaced(rest) && Trimmed(rest) by {
      assert t[k + 1] == rest[0] && t[|t| - 1] == rest[|rest| - 1];
      SliceKeepsSpacing(t, k + 1, |t|);
    }
    assert Runs(t, false) == [w] + Runs(rest, false) by {
      assert t == w + ([' '] + rest);
      RunsAppend(w, [' '] + rest, false);
      RunsCons(' ', rest, false);
      RunsOfRun(w, false);
    }
  }

  /** `formatTaskTitle` of the AI service. */
  function FormatTaskTitle(title: string): string {
    CapitalizeWords(Trim(CollapseWhitespace(ReplaceSeparators(title))))
  }

  /**
   * The normalised title is `Formatted`, keeps the word characters of the
   * input up to case, and is empty exactly when the input holds nothing but
   * separators.
   */
  lemma FormatTaskTitleNormalises(title: string)
    ensures var r := FormatTaskTitle(title);
      && Formatted(r)
      && Squash(r) == Squash(title)
      && (r == "" <==> forall i :: 0 <= i < |title| ==> IsSeparator(title[i]))
  {
    var spaced := ReplaceSeparators(title);
    ReplaceSeparatorsSpaces(title);
    var collapsed := CollapseWhitespace(spaced);
    CollapseWhitespaceCollapses(spaced);
    var trimmed := Trim(collapsed);
    TrimTrims(collapsed);
    CapitalizeWordsFormats(trimmed);
    var r := CapitalizeWords(trimmed);
    SquashEmpty(title);
    SquashEmpty(r);
    assert |r| > 0 ==> !IsSeparator(r[0]);
  }

  /**
   * `split(' ')` of a non-empty single-spaced, trimmed string gives exactly
   * its words. The empty string is the exception: it splits into `[""]`
   * but has no words.
   */
  lemma TidySplitIsRuns(t: string)
    requires SingleSpaced(t) && Trimmed(t)
    ensures |t| > 0 ==> Split(t, ' ') == Runs(t, false)
    ensures |t| == 0 ==> Split(t, ' ') == [""] && Runs(t, false) == []
  {
    var ws := Runs(t, false);
    if |t| > 0 {
      TidyIsJoinedRuns(t);
      RunsAreRuns(t, false);
      assert forall k, i :: 0 <= k < |ws| && 0 <= i < |ws[k]| ==> ws[k][i] != ' ' by {
        forall k, i | 0 <= k < |ws| && 0 <= i < |ws[k]|
          ensures ws[k][i] != ' '
        {
          assert IsRun(ws[k], false);
        }
      }
      SplitJoin(ws, ' ');
    }
  }

  /**
   * The normalised title is the words of the input, each capitalised, joined
   * by single spaces: a word ends exactly where a run of whitespace, `_` or
   * `-` begins, however long the run.
   */
  lemma FormatTaskTitleWords(title: string)
    ensures FormatTaskTitle(title) == Join(CapitalizeAll(Words(title)), " ")
  {
    var spaced := ReplaceSeparators(title);
    ReplaceSeparatorsSpaces(title);
    var collapsed := CollapseWhitespace(spaced);
    CollapseWhitespaceCollapses(spaced);
    var trimmed := Trim(collapsed);
    TrimTrims(collapsed);
    TrimKeepsRuns(collapsed);
    var ws := Words(title);
    assert Runs(trimmed, false) == ws;
    TidySplitIsRuns(trimmed);
  }

  /**
   * When replacing underscores and hyphens already leaves single, inner
   * spaces, normalising only recapitalises the words.
   */
  lemma FormatTidyTitle(title: string)
    requires SingleSpaced(ReplaceSeparators(title)) && Trimmed(ReplaceSeparators(title))
    ensures FormatTaskTitle(title) == CapitalizeWords(ReplaceSeparators(title))
  {
    var spaced := ReplaceSeparators(title);
    CollapseWhitespaceCollapses(spaced);
    TrimTrims(spaced);
  }

  /** A title already in normal form is left exactly as it is. */
  lemma FormattedIsFixpoint(s: string)
    requires Formatted(s)
    ensures FormatTaskTitle(s) == s
  {
    var spaced := ReplaceSeparators(s);
    assert spaced == s;
    CollapseWhitespaceCollapses(s);
    TrimTrims(s);
    assert CapitalizeWords(s) == s;
  }

  /** Normalising twice is the same as normalising once. */
  lemma FormatIdempotent(title: string)
    ensures FormatTaskTitle(FormatTaskTitle(title)) == FormatTaskTitle(title)
  {
    FormatTaskTitleNormalises(title);
    FormattedIsFixpoint(FormatTaskTitle(title));
  }
}
