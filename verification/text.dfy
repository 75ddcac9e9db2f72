/**
 * The few JavaScript string built-ins the service relies on, over `seq<char>`:
 * the `\s` character class, ASCII case mapping, `includes`, decimal rendering
 * of integers, and `split`/`join` on a single-character separator.
 */
module Text {

  /** ECMAScript WhiteSpace and LineTerminator code points: what `\s` matches and `trim` removes. */
  predicate IsSpace(c: char) {
    || c == '\t' || c == '\n' || c == '\U{B}' || c == '\U{C}' || c == '\r' || c == ' '
    || c == '\U{A0}' || c == '\U{1680}' || ('\U{2000}' <= c <= '\U{200A}')
    || c == '\U{2028}' || c == '\U{2029}' || c == '\U{202F}' || c == '\U{205F}'
    || c == '\U{3000}' || c == '\U{FEFF}'
  }

  /** `toUpperCase` of one character, restricted to ASCII letters. */
  function Upper(c: char): (u: char)
    ensures 'a' <= c <= 'z' ==> 'A' <= u <= 'Z' && u as int == c as int - 32
    ensures !('a' <= c <= 'z') ==> u == c
  {
    if 'a' <= c <= 'z' then (c as int - 32) as char else c
  }

  /** `toLowerCase` of one character, restricted to ASCII letters. */
  function Lower(c: char): (l: char)
    ensures 'A' <= c <= 'Z' ==> 'a' <= l <= 'z' && l as int == c as int + 32
    ensures !('A' <= c <= 'Z') ==> l == c
  {
    if 'A' <= c <= 'Z' then (c as int + 32) as char else c
  }

  /** How the two ASCII case maps compose, and what they leave alone. */
  lemma CaseLaws(c: char)
    ensures Upper(Upper(c)) == Upper(c) && Lower(Lower(c)) == Lower(c)
    ensures Lower(Upper(c)) == Lower(c) && Upper(Lower(c)) == Upper(c)
    ensures IsSpace(Upper(c)) == IsSpace(c) && IsSpace(Lower(c)) == IsSpace(c)
    ensures (Upper(c) == ' ') == (c == ' ') && (Lower(c) == ' ') == (c == ' ')
    ensures (Upper(c) == '_') == (c == '_') && (Lower(c) == '_') == (c == '_')
    ensures (Upper(c) == '-') == (c == '-') && (Lower(c) == '-') == (c == '-')
  {
  }

  /** `toLowerCase` of a string. */
  function LowerAll(s: string): (r: string)
    ensures |r| == |s|
    ensures forall i :: 0 <= i < |s| ==> r[i] == Lower(s[i])
  {
    seq(|s|, i requires 0 <= i < |s| => Lower(s[i]))
  }

  /** `s.includes(sub)`. */
  predicate Contains(s: string, sub: string)
    decreases |s|
  {
    sub <= s || (|s| > 0 && Contains(s[1..], sub))
  }

  /** `s` cannot contain `sub` when some character of `sub` never occurs in `s`. */
  lemma {:induction false} MissingCharNotContained(s: string, sub: string, c: char)
    requires c in sub && c !in s
    ensures !Contains(s, sub)
    decreases |s|
  {
    var k :| 0 <= k < |sub| && sub[k] == c;
    assert k < |s| ==> s[k] != c;
    if |s| > 0 {
      MissingCharNotContained(s[1..], sub, c);
    }
  }

  lemma {:induction false} ContainsSuffix(a: string, b: string)
    ensures Contains(a + b, b)
    decreases |a|
  {
    if |a| == 0 {
      assert a + b == b;
    } else {
      assert (a + b)[1..] == a[1..] + b;
      ContainsSuffix(a[1..], b);
    }
  }

  lemma {:induction false} ContainsPrefixOf(a: string, b: string, sub: string)
    requires Contains(a, sub)
    ensures Contains(a + b, sub)
    decreases |a|
  {
    if sub <= a {
      assert sub <= a + b;
    } else {
      assert (a + b)[1..] == a[1..] + b;
      ContainsPrefixOf(a[1..], b, sub);
    }
  }

  /** Every part of a join occurs in the joined string. */
  lemma {:induction false} JoinContainsParts(parts: seq<string>, sep: string)
    ensures forall p <- parts :: Contains(Join(parts, sep), p)
    decreases |parts|
  {
    if |parts| == 1 {
      assert Contains(parts[0], parts[0]) by {
        ContainsSuffix("", parts[0]);
      }
    } else if |parts| > 1 {
      var rest := Join(parts[1..], sep);
      JoinContainsParts(parts[1..], sep);
      assert Join(parts, sep) == parts[0] + (sep + rest);
      ContainsSuffix("", parts[0]);
      ContainsPrefixOf(parts[0], sep + rest, parts[0]);
      forall p <- parts[1..]
        ensures Contains(Join(parts, sep), p)
      {
        ContainsSuffix(parts[0] + sep, rest);
        assert Join(parts, sep) == (parts[0] + sep) + rest;
        ContainsWithin(parts[0] + sep, rest, p);
      }
    }
  }

  /** A substring of the tail is a substring of the whole. */
  lemma {:induction false} ContainsWithin(a: string, b: string, sub: string)
    requires Contains(b, sub)
    ensures Contains(a + b, sub)
    decreases |a|
  {
    if |a| == 0 {
      assert a + b == b;
    } else {
      assert (a + b)[1..] == a[1..] + b;
      ContainsWithin(a[1..], b, sub);
    }
  }

  function Digit(d: nat): (c: char)
    requires d < 10
  {
    ('0' as int + d) as char
  }

  /** The decimal rendering JavaScript gives a non-negative integer (`${n}`). */
  function DecimalString(n: nat): (r: string)
    ensures |r| >= 1
    ensures |r| == 1 <==> n < 10
    ensures forall i :: 0 <= i < |r| ==> '0' <= r[i] <= '9'
  {
    if n < 10 then [Digit(n)] else DecimalString(n / 10) + [Digit(n % 10)]
  }

  /** Distinct numbers render differently, so `task-<n>` identifiers never collide. */
  lemma {:induction false} DecimalStringInjective(a: nat, b: nat)
    requires DecimalString(a) == DecimalString(b)
    ensures a == b
    decreases a
  {
    if a >= 10 && b >= 10 {
      var da, db := DecimalString(a), DecimalString(b);
      assert da[|da| - 1] == db[|db| - 1];
      assert a % 10 == b % 10;
      assert DecimalString(a / 10) == da[..|da| - 1];
      assert DecimalString(b / 10) == db[..|db| - 1];
      DecimalStringInjective(a / 10, b / 10);
    }
  }

  /** `parts.join(sep)`. */
  function Join(parts: seq<string>, sep: string): string
    decreases |parts|
  {
    if |parts| == 0 then ""
    else if |parts| == 1 then parts[0]
    else parts[0] + sep + Join(parts[1..], sep)
  }

  /** `s.indexOf(c)` for a character known to occur. */
  function IndexOf(s: string, c: char): (i: nat)
    requires c in s
    ensures i < |s| && s[i] == c
    ensures c !in s[..i]
  {
    if s[0] == c then 0 else IndexOf(s[1..], c) + 1
  }

  /** `s.split(sep)` for a one-character separator: the chunks between separators, in order. */
  function Split(s: string, sep: char): (parts: seq<string>)
    ensures |parts| >= 1
    ensures forall p <- parts :: sep !in p
    ensures Join(parts, [sep]) == s
    decreases |s|
  {
    if sep in s then
      var i := IndexOf(s, sep);
      assert s == s[..i] + [sep] + s[i + 1..];
      [s[..i]] + Split(s[i + 1..], sep)
    else
      [s]
  }

  /** `indexOf` finds the first occurrence. */
  lemma {:induction false} IndexOfFirst(s: string, c: char, k: nat)
    requires k < |s| && s[k] == c
    requires forall i :: 0 <= i < k ==> s[i] != c
    ensures IndexOf(s, c) == k
    decreases k
  {
    if k > 0 {
      assert s[1..][k - 1] == c;
      assert forall i :: 0 <= i < k - 1 ==> s[1..][i] == s[i + 1];
      IndexOfFirst(s[1..], c, k - 1);
    }
  }

  /** Splitting a join on a separator that occurs in no part gives the parts back. */
  lemma {:induction false} SplitJoin(parts: seq<string>, sep: char)
    requires |parts| > 0
    requires forall k, i :: 0 <= k < |parts| && 0 <= i < |parts[k]| ==> parts[k][i] != sep
    ensures Split(Join(parts, [sep]), sep) == parts
    decreases |parts|
  {
    var s := Join(parts, [sep]);
    if |parts| == 1 {
      assert s == parts[0];
      assert sep !in s;
    } else {
      var w, rest := parts[0], Join(parts[1..], [sep]);
      assert s == w + [sep] + rest;
      assert forall i :: 0 <= i < |w| ==> s[i] == w[i];
      IndexOfFirst(s, sep, |w|);
      assert s[..|w|] == w && s[|w| + 1..] == rest;
      SplitJoin(parts[1..], sep);
    }
  }

  /** `word.charAt(0).toUpperCase() + word.slice(1).toLowerCase()`. */
  function CapitalizeWord(w: string): (r: string)
    ensures |r| == |w|
    ensures |w| > 0 ==> r[0] == Upper(w[0])
    ensures forall i :: 1 <= i < |w| ==> r[i] == Lower(w[i])
  {
    if |w| == 0 then "" else [Upper(w[0])] + LowerAll(w[1..])
  }

  function CapitalizeAll(words: seq<string>): seq<string>
    decreases |words|
  {
    if |words| == 0 then [] else [CapitalizeWord(words[0])] + CapitalizeAll(words[1..])
  }

  /**
   * The case a character takes in `split(' ').map(CapitalizeWord).join(' ')`:
   * upper case at the start of a space-delimited chunk, lower case elsewhere.
   */
  function CaseAt(s: string, i: nat): char
    requires i < |s|
  {
    if i == 0 || s[i - 1] == ' ' then Upper(s[i]) else Lower(s[i])
  }

  /** `s.split(' ').map(CapitalizeWord).join(' ')`. */
  function CapitalizeWords(s: string): (r: string)
    ensures |r| == |s|
    ensures forall i :: 0 <= i < |s| ==> r[i] == CaseAt(s, i)
  {
    CapitalizeWordsPointwise(s);
    Join(CapitalizeAll(Split(s, ' ')), " ")
  }

  lemma {:induction false} CapitalizeWordsPointwise(s: string)
    ensures |Join(CapitalizeAll(Split(s, ' ')), " ")| == |s|
    ensures forall i :: 0 <= i < |s| ==> Join(CapitalizeAll(Split(s, ' ')), " ")[i] == CaseAt(s, i)
    decreases |s|
  {
    var parts := Split(s, ' ');
    if ' ' in s {
      var k := IndexOf(s, ' ');
      var w, t := s[..k], s[k + 1..];
      assert parts == [w] + Split(t, ' ');
      var rest := CapitalizeAll(Split(t, ' '));
      assert CapitalizeAll(parts) == [CapitalizeWord(w)] + rest;
      assert |rest| >= 1;
      var r := Join(CapitalizeAll(parts), " ");
      assert r == CapitalizeWord(w) + " " + Join(rest, " ");
      CapitalizeWordsPointwise(t);
      forall i | 0 <= i < |s|
        ensures r[i] == CaseAt(s, i)
      {
        if i < k {
          assert ' ' !in w;
          if i > 0 {
            assert s[i - 1] == w[i - 1];
          }
        } else if i == k {
        } else if i == k + 1 {
          assert r[i] == Join(rest, " ")[0];
        } else {
          assert r[i] == Join(rest, " ")[i - k - 1];
          assert s[i - 1] == t[i - k - 2];
        }
      }
    } else {
      assert parts == [s];
      assert CapitalizeAll(parts) == [CapitalizeWord(s)];
      assert Join(CapitalizeAll(parts), " ") == CapitalizeWord(s);
      forall i | 0 <= i < |s|
        ensures CapitalizeWord(s)[i] == CaseAt(s, i)
      {
        if i > 0 {
          assert s[i - 1] in s;
        }
      }
    }
  }
}
