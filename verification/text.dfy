/** Python string operations the fetchers and log writers rely on:
    `str.replace`, `str.join` and `str.split`, stated over `seq<char>`. */
module Text {

  /** `pat` occurs in `s` starting at index `i`. */
  predicate OccursAt(s: string, pat: string, i: int)
  {
    0 <= i && i + |pat| <= |s| && s[i..i + |pat|] == pat
  }

  /** `pat` occurs somewhere in `s`. */
  ghost predicate Occurs(s: string, pat: string)
  {
    exists i :: OccursAt(s, pat, i)
  }

  /** Python `s.replace(pat, rep)` for a non-empty `pat`: scans left to right
      and replaces every non-overlapping occurrence. */
  function Replace(s: string, pat: string, rep: string): string
    requires |pat| > 0
    decreases |s|
  {
    if |s| < |pat| then s
    else if s[..|pat|] == pat then rep + Replace(s[|pat|..], pat, rep)
    else [s[0]] + Replace(s[1..], pat, rep)
  }

  /** Every character of a replacement's result comes from the input or from `rep`. */
  lemma {:induction false} ReplaceChars(s: string, pat: string, rep: string)
    requires |pat| > 0
    ensures forall c :: c in Replace(s, pat, rep) ==> c in s || c in rep
    decreases |s|
  {
    if |s| < |pat| {
    } else if s[..|pat|] == pat {
      ReplaceChars(s[|pat|..], pat, rep);
    } else {
      ReplaceChars(s[1..], pat, rep);
    }
  }

  /** Replacing a single character by one character is a pointwise map. */
  lemma {:induction false} ReplaceCharPointwise(s: string, a: char, b: char)
    ensures |Replace(s, [a], [b])| == |s|
    ensures forall i :: 0 <= i < |s| ==> Replace(s, [a], [b])[i] == (if s[i] == a then b else s[i])
    decreases |s|
  {
    if |s| == 0 {
    } else {
      ReplaceCharPointwise(s[1..], a, b);
      var r := Replace(s, [a], [b]);
      if s[..1] == [a] {
        assert r == [b] + Replace(s[1..], [a], [b]);
      } else {
        assert r == [s[0]] + Replace(s[1..], [a], [b]);
      }
    }
  }

  /** After `s.replace(a, rep)` with `a` not in `rep`, no `a` is left. */
  lemma ReplaceRemovesChar(s: string, a: char, rep: string)
    requires a !in rep
    ensures a !in Replace(s, [a], rep)
    decreases |s|
  {
    if |s| > 0 {
      ReplaceRemovesChar(s[1..], a, rep);
      if s[..1] != [a] {
        assert s[0] != a;
      }
    }
  }

  /** A replacement whose pattern does not occur changes nothing. */
  lemma {:induction false} ReplaceAbsent(s: string, pat: string, rep: string)
    requires |pat| > 0
    requires !Occurs(s, pat)
    ensures Replace(s, pat, rep) == s
    decreases |s|
  {
    if |s| >= |pat| {
      assert !OccursAt(s, pat, 0);
      assert s[..|pat|] != pat;
      forall i | OccursAt(s[1..], pat, i)
        ensures false
      {
        assert s[1..][i..i + |pat|] == s[i + 1..i + 1 + |pat|];
        assert OccursAt(s, pat, i + 1);
      }
      ReplaceAbsent(s[1..], pat, rep);
    }
  }

  /** A string without the character `c` has no occurrence of any pattern containing `c`. */
  lemma NoCharNoOccurrence(s: string, pat: string, c: char)
    requires c in pat && c !in s
    ensures !Occurs(s, pat)
  {
    var j :| 0 <= j < |pat| && pat[j] == c;
    forall i | 0 <= i <= |s| - |pat|
      ensures !OccursAt(s, pat, i)
    {
      assert s[i..i + |pat|][j] == s[i + j];
    }
  }

  /** A string with no two neighbouring copies of `c` has no `[c, c]` in it. */
  lemma NoDoubledChar(s: string, c: char)
    requires forall i :: 0 <= i < |s| - 1 ==> !(s[i] == c && s[i + 1] == c)
    ensures !Occurs(s, [c, c])
  {
    forall i | 0 <= i <= |s| - 2
      ensures !OccursAt(s, [c, c], i)
    {
      assert s[i..i + 2][0] == s[i] && s[i..i + 2][1] == s[i + 1];
    }
  }

  /** Replacing a character by a different one is idempotent. */
  lemma ReplaceCharIdempotent(s: string, a: char, b: char)
    requires a != b
    ensures Replace(Replace(s, [a], [b]), [a], [b]) == Replace(s, [a], [b])
  {
    var r := Replace(s, [a], [b]);
    ReplaceRemovesChar(s, a, [b]);
    NoCharNoOccurrence(r, [a], a);
    ReplaceAbsent(r, [a], [b]);
  }

  /** When the last character of `a` is not part of `pat`, no occurrence can
      straddle the seam, so replacing in `a + b` replaces in each half. */
  lemma {:induction false} ReplaceAppend(a: string, b: string, pat: string, rep: string)
    requires |pat| > 0
    requires |a| > 0 ==> a[|a| - 1] !in pat
    ensures Replace(a + b, pat, rep) == Replace(a, pat, rep) + Replace(b, pat, rep)
    decreases |a|
  {
    if |a| == 0 {
      assert a + b == b;
    } else if |a| < |pat| {
      ReplaceShortPrefix(a, b, pat, rep);
    } else {
      assert (a + b)[..|pat|] == a[..|pat|];
      if a[..|pat|] == pat {
        assert (a + b)[|pat|..] == a[|pat|..] + b;
        ReplaceAppend(a[|pat|..], b, pat, rep);
      } else {
        assert (a + b)[1..] == a[1..] + b;
        ReplaceAppend(a[1..], b, pat, rep);
      }
    }
  }

  /** Helper for `ReplaceAppend`: a prefix shorter than the pattern whose last
      character is not in the pattern is copied unchanged. */
  lemma {:induction false} ReplaceShortPrefix(x: string, b: string, pat: string, rep: string)
    requires 0 < |x| < |pat|
    requires x[|x| - 1] !in pat
    ensures Replace(x + b, pat, rep) == x + Replace(b, pat, rep)
    ensures Replace(x, pat, rep) == x
    decreases |x|
  {
    var s := x + b;
    if |s| >= |pat| {
      var k := |x| - 1;
      assert s[..|pat|][k] == x[k];
      assert s[..|pat|] != pat;
      assert Replace(s, pat, rep) == [x[0]] + Replace(s[1..], pat, rep);
      assert s[1..] == x[1..] + b;
      if |x| > 1 {
        ReplaceShortPrefix(x[1..], b, pat, rep);
      } else {
        assert x[1..] + b == b;
      }
      assert [x[0]] + x[1..] == x;
    }
  }

  /** A prefix without the pattern's first character cannot start an
      occurrence, so it is copied unchanged. */
  lemma {:induction false} ReplaceNoStart(x: string, b: string, pat: string, rep: string)
    requires |pat| > 0 && pat[0] !in x
    ensures Replace(x + b, pat, rep) == x + Replace(b, pat, rep)
    decreases |x|
  {
    if |x| > 0 {
      var s := x + b;
      if |s| >= |pat| {
        assert s[..|pat|][0] == x[0];
        assert s[1..] == x[1..] + b;
        ReplaceNoStart(x[1..], b, pat, rep);
      } else {
        assert Replace(b, pat, rep) == b;
      }
    } else {
      assert x + b == b;
    }
  }

  /** Python `sep.join(xs)`. */
  function Join(sep: string, xs: seq<string>): string
  {
    if |xs| == 0 then ""
    else if |xs| == 1 then xs[0]
    else xs[0] + sep + Join(sep, xs[1..])
  }

  /** Python `s.split(c)` for a one-character separator: never empty, `""` splits to `[""]`. */
  function Split(s: string, c: char): (r: seq<string>)
    ensures |r| > 0
    decreases |s|
  {
    if |s| == 0 then [""]
    else if s[0] == c then [""] + Split(s[1..], c)
    else
      var rest := Split(s[1..], c);
      [[s[0]] + rest[0]] + rest[1..]
  }

  /** A string without the separator splits to itself. */
  lemma {:induction false} SplitNoSeparator(x: string, c: char)
    requires c !in x
    ensures Split(x, c) == [x]
    decreases |x|
  {
    if |x| > 0 {
      SplitNoSeparator(x[1..], c);
      assert [x[0]] + x[1..] == x;
    }
  }

  /** A field without the separator followed by the separator splits off as one field. */
  lemma {:induction false} SplitField(x: string, c: char, t: string)
    requires c !in x
    ensures Split(x + [c] + t, c) == [x] + Split(t, c)
    decreases |x|
  {
    if |x| == 0 {
      assert x + [c] + t == [c] + t;
      assert ([c] + t)[1..] == t;
    } else {
      assert (x + [c] + t)[1..] == x[1..] + [c] + t;
      SplitField(x[1..], c, t);
      assert [x[0]] + x[1..] == x;
    }
  }

  /** Splitting a join on the same one-character separator gives the fields back,
      provided there is at least one field and no field contains the separator. */
  lemma {:induction false} SplitJoin(xs: seq<string>, c: char)
    requires |xs| > 0
    requires forall i :: 0 <= i < |xs| ==> c !in xs[i]
    ensures Split(Join([c], xs), c) == xs
    decreases |xs|
  {
    if |xs| == 1 {
      SplitNoSeparator(xs[0], c);
    } else {
      SplitJoin(xs[1..], c);
      SplitField(xs[0], c, Join([c], xs[1..]));
      assert [xs[0]] + xs[1..] == xs;
    }
  }
}
