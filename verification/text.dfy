/** The optional value both generators use for "matched or not". */
module Wrappers {

  datatype Option<+T> = None | Some(value: T) {

    function GetOr(default: T): T {
      match this
      case Some(v) => v
      case None => default
    }
  }
}

/**
  String primitives with Python's meaning: the whitespace class `\s` of a
  `str` pattern, the ordering `<` on `str`, `str.replace`, `str.join` and
  `str.upper`.
 */
module Text {

  /** A character that `str.isspace` accepts, which is also what `\s`
      matches in a `str` regular expression. */
  predicate IsSpace(c: char) {
    || c == ' '
    || '\t' <= c <= '\r'
    || '\U{1c}' <= c <= '\U{1f}'
    || c == '\U{85}'
    || c == '\U{a0}'
    || c == '\U{1680}'
    || '\U{2000}' <= c <= '\U{200a}'
    || c == '\U{2028}'
    || c == '\U{2029}'
    || c == '\U{202f}'
    || c == '\U{205f}'
    || c == '\U{3000}'
  }

  predicate AllSpace(s: string) {
    forall i :: 0 <= i < |s| ==> IsSpace(s[i])
  }

  predicate StartsWith(s: string, prefix: string) {
    |prefix| <= |s| && s[..|prefix|] == prefix
  }

  /** `pat in s` for strings: `pat` occurs somewhere in `s`. */
  predicate Contains(s: string, pat: string)
    decreases |s|
  {
    StartsWith(s, pat) || (|s| > 0 && Contains(s[1..], pat))
  }

  /** Python's `a < b` on `str`: lexicographic by code point, with a proper
      prefix ordered before the longer string. */
  predicate Less(a: string, b: string)
    decreases |a|
  {
    |b| > 0 && (|a| == 0 || a[0] < b[0] || (a[0] == b[0] && Less(a[1..], b[1..])))
  }

  lemma {:induction false} LessIrreflexive(a: string)
    ensures !Less(a, a)
    decreases |a|
  {
    if |a| > 0 {
      LessIrreflexive(a[1..]);
    }
  }

  lemma {:induction false} LessTransitive(a: string, b: string, c: string)
    requires Less(a, b) && Less(b, c)
    ensures Less(a, c)
    decreases |a|
  {
    if |a| > 0 && a[0] == b[0] && b[0] == c[0] {
      LessTransitive(a[1..], b[1..], c[1..]);
    }
  }

  /** Any two distinct strings are ordered one way or the other. */
  lemma {:induction false} LessConnected(a: string, b: string)
    ensures a == b || Less(a, b) || Less(b, a)
    decreases |a|
  {
    if |a| > 0 && |b| > 0 && a[0] == b[0] {
      LessConnected(a[1..], b[1..]);
      if a[1..] == b[1..] {
        assert a == [a[0]] + a[1..] && b == [b[0]] + b[1..];
      }
    }
  }

  /** `Less` is a strict total order on strings. */
  lemma LessIsStrictTotalOrder()
    ensures forall a :: !Less(a, a)
    ensures forall a, b, c :: Less(a, b) && Less(b, c) ==> Less(a, c)
    ensures forall a, b :: a == b || Less(a, b) || Less(b, a)
  {
    forall a: string ensures !Less(a, a) {
      LessIrreflexive(a);
    }
    forall a: string, b: string, c: string | Less(a, b) && Less(b, c)
      ensures Less(a, c)
    {
      LessTransitive(a, b, c);
    }
    forall a: string, b: string ensures a == b || Less(a, b) || Less(b, a) {
      LessConnected(a, b);
    }
  }

  /** Python's `s.replace(pat, sub)` for a non-empty `pat`: scanning from
      the left, every occurrence of `pat` that does not overlap an earlier
      replaced one is replaced by `sub`. A string in which `pat` does not
      occur is left as it is. */
  function Replace(s: string, pat: string, sub: string): (r: string)
    requires |pat| > 0
    ensures !Contains(s, pat) ==> r == s
    decreases |s|
  {
    if |s| == 0 then []
    else if StartsWith(s, pat) then sub + Replace(s[|pat|..], pat, sub)
    else
      assert s == [s[0]] + s[1..];
      [s[0]] + Replace(s[1..], pat, sub)
  }

  /** Every character of a replacement's result comes from the text or from
      the replacement. */
  lemma {:induction false} ReplaceChars(s: string, pat: string, sub: string)
    requires |pat| > 0
    ensures forall c :: c in Replace(s, pat, sub) ==> c in s || c in sub
    decreases |s|
  {
    if |s| > 0 {
      if StartsWith(s, pat) {
        ReplaceChars(s[|pat|..], pat, sub);
        assert forall c :: c in s[|pat|..] ==> c in s;
      } else {
        ReplaceChars(s[1..], pat, sub);
        assert forall c :: c in s[1..] ==> c in s;
      }
    }
  }

  /** An occurrence at the very start is always replaced. */
  lemma ReplaceAtStart(pat: string, t: string, sub: string)
    requires |pat| > 0
    ensures Replace(pat + t, pat, sub) == sub + Replace(t, pat, sub)
  {
    assert StartsWith(pat + t, pat);
    assert (pat + t)[|pat|..] == t;
  }

  /** A first character that starts no occurrence is copied. */
  lemma ReplaceUnmatched(c: char, t: string, pat: string, sub: string)
    requires |pat| > 0 && !StartsWith([c] + t, pat)
    ensures Replace([c] + t, pat, sub) == [c] + Replace(t, pat, sub)
  {
    assert ([c] + t)[1..] == t;
  }

  /** A first character that cannot start an occurrence is copied. */
  lemma ReplaceSkip(c: char, t: string, pat: string, sub: string)
    requires |pat| > 0 && pat[0] != c
    ensures Replace([c] + t, pat, sub) == [c] + Replace(t, pat, sub)
  {
    assert ([c] + t)[1..] == t;
  }

  /** If a longer pattern occurs, so does every prefix of it. */
  lemma {:induction false} ContainsPrefix(s: string, pat: string, more: string)
    requires Contains(s, pat + more)
    ensures Contains(s, pat)
    decreases |s|
  {
    if StartsWith(s, pat + more) {
      assert s[..|pat|] == (pat + more)[..|pat|] == pat;
    } else {
      ContainsPrefix(s[1..], pat, more);
    }
  }

  /** Without `pat`, no longer pattern starting with `pat` occurs either. */
  lemma NotContainsLonger(s: string, pat: string, more: string)
    ensures !Contains(s, pat) ==> !Contains(s, pat + more)
  {
    if Contains(s, pat + more) {
      ContainsPrefix(s, pat, more);
    }
  }

  /** Text put in front keeps every occurrence. */
  lemma {:induction false} ContainsAfter(a: string, b: string, pat: string)
    requires Contains(b, pat)
    ensures Contains(a + b, pat)
    decreases |a|
  {
    if |a| > 0 {
      assert (a + b)[1..] == a[1..] + b;
      ContainsAfter(a[1..], b, pat);
    } else {
      assert a + b == b;
    }
  }

  /** A text shorter than the pattern cannot hold it. */
  lemma {:induction false} ShortAbsent(s: string, pat: string)
    requires |s| < |pat|
    ensures !Contains(s, pat)
    decreases |s|
  {
    if |s| > 0 {
      ShortAbsent(s[1..], pat);
    }
  }

  /** A prefix none of whose characters starts the pattern is copied. */
  lemma {:induction false} ReplaceKeeps(a: string, t: string, pat: string, sub: string)
    requires |pat| > 0 && pat[0] !in a
    ensures Replace(a + t, pat, sub) == a + Replace(t, pat, sub)
    decreases |a|
  {
    if |a| > 0 {
      ReplaceSkip(a[0], a[1..] + t, pat, sub);
      assert a + t == [a[0]] + (a[1..] + t);
      ReplaceKeeps(a[1..], t, pat, sub);
      assert a == [a[0]] + a[1..];
    } else {
      assert a + t == t;
    }
  }

  /** Python's `sep.join(parts)`. */
  function Join(parts: seq<string>, sep: string): (r: string)
    decreases |parts|
  {
    if |parts| == 0 then ""
    else if |parts| == 1 then parts[0]
    else parts[0] + sep + Join(parts[1..], sep)
  }

  /** `"".join(parts)`, the repeated `s += ...` of both generators. */
  function Concat(parts: seq<string>): (r: string)
    decreases |parts|
  {
    if |parts| == 0 then "" else parts[0] + Concat(parts[1..])
  }

  lemma {:induction false} ConcatAppend(a: seq<string>, b: seq<string>)
    ensures Concat(a + b) == Concat(a) + Concat(b)
    decreases |a|
  {
    if |a| > 0 {
      assert (a + b)[1..] == a[1..] + b;
      ConcatAppend(a[1..], b);
    } else {
      assert a + b == b;
    }
  }

  /** `c * n`: the character `c`, `n` times. */
  function Repeat(c: char, n: nat): (r: string)
    ensures |r| == n
    ensures forall i :: 0 <= i < n ==> r[i] == c
  {
    seq(n, i => c)
  }

  /** `c.upper()` restricted to the ASCII letters. */
  function UpperChar(c: char): char {
    if 'a' <= c <= 'z' then (c as int - 'a' as int + 'A' as int) as char else c
  }

  /** `s.upper()` on ASCII text: one character out for each character in. */
  function Upper(s: string): (r: string)
    ensures |r| == |s|
    ensures forall i :: 0 <= i < |s| ==> r[i] == UpperChar(s[i])
  {
    seq(|s|, i requires 0 <= i < |s| => UpperChar(s[i]))
  }

  /** Index of the first `c` in `s`. */
  function FirstIndex(s: string, c: char): (i: nat)
    requires c in s
    ensures i < |s| && s[i] == c && c !in s[..i]
    decreases |s|
  {
    if s[0] == c then 0
    else
      assert c in s[1..] by { var k :| 0 <= k < |s| && s[k] == c; assert s[1..][k - 1] == c; }
      var i := 1 + FirstIndex(s[1..], c);
      assert s[..i] == [s[0]] + s[1..][..i - 1];
      i
  }

  /** Python's `s.split(sep)` for a one-character separator. */
  function Split(s: string, sep: char): (r: seq<string>)
    decreases |s|
  {
    if sep !in s then [s]
    else
      var i := FirstIndex(s, sep);
      [s[..i]] + Split(s[i + 1..], sep)
  }

  lemma FirstIndexAfter(a: string, c: char, b: string)
    requires c !in a
    ensures c in a + [c] + b && FirstIndex(a + [c] + b, c) == |a|
  {
    var s := a + [c] + b;
    assert s[|a|] == c;
  }

  /** A separator after a separator-free part ends exactly that part. */
  lemma SplitAt(a: string, sep: char, b: string)
    requires sep !in a
    ensures Split(a + [sep] + b, sep) == [a] + Split(b, sep)
  {
    var s := a + [sep] + b;
    FirstIndexAfter(a, sep, b);
    assert s[..|a|] == a;
    assert s[|a| + 1..] == b;
  }

  /** Splitting on the separator undoes joining with it, as long as no part
      holds the separator itself. */
  lemma {:induction false} SplitJoin(parts: seq<string>, sep: char)
    requires |parts| > 0
    requires forall i :: 0 <= i < |parts| ==> sep !in parts[i]
    ensures Split(Join(parts, [sep]), sep) == parts
    decreases |parts|
  {
    if |parts| > 1 {
      var rest := Join(parts[1..], [sep]);
      assert Join(parts, [sep]) == parts[0] + [sep] + rest;
      SplitAt(parts[0], sep, rest);
      SplitJoin(parts[1..], sep);
      assert parts == [parts[0]] + parts[1..];
    }
  }

  /** Number of newlines in `s`. */
  function Newlines(s: string): nat
    decreases |s|
  {
    if |s| == 0 then 0 else (if s[0] == '\n' then 1 else 0) + Newlines(s[1..])
  }

  lemma {:induction false} NewlinesAppend(a: string, b: string)
    ensures Newlines(a + b) == Newlines(a) + Newlines(b)
    decreases |a|
  {
    if |a| > 0 {
      assert (a + b)[1..] == a[1..] + b;
      NewlinesAppend(a[1..], b);
    } else {
      assert a + b == b;
    }
  }

  /** A newline-free text followed by a newline is one line. */
  lemma NewlineTerminated(e: string)
    ensures '\n' !in e ==> Newlines(e + "\n") == 1
  {
    NewlinesAppend(e, "\n");
    if '\n' !in e {
      NewlinesNone(e);
    }
  }

  lemma {:induction false} NewlinesNone(s: string)
    requires '\n' !in s
    ensures Newlines(s) == 0
    decreases |s|
  {
    if |s| > 0 {
      NewlinesNone(s[1..]);
    }
  }
}
