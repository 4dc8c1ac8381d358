/**
 * Literal string replacement with the semantics of Python's `str.replace`
 * (leftmost matches, no overlaps, scanning resumes after each replacement),
 * plain and ASCII case-insensitive substring search, and the facts about how
 * a replacement can and cannot create occurrences of a pattern.
 */
module Strings {

  /** Python's `s.replace(pat, rep)` for a non-empty pattern. */
  function ReplaceAll(s: string, pat: string, rep: string): (r: string)
    requires pat != []
    ensures |rep| <= |pat| ==> |r| <= |s|
    decreases |s|
  {
    if |s| < |pat| then s
    else if s[..|pat|] == pat then rep + ReplaceAll(s[|pat|..], pat, rep)
    else [s[0]] + ReplaceAll(s[1..], pat, rep)
  }

  /** ASCII lower-casing of one character; every other character is kept. */
  function Lower(c: char): (d: char)
    ensures 'A' <= c <= 'Z' ==> 'a' <= d <= 'z' && d as int - c as int == 32
    ensures !('A' <= c <= 'Z') ==> d == c
  {
    if 'A' <= c <= 'Z' then (c as int + 32) as char else c
  }

  function LowerAll(s: string): (r: string)
    ensures |r| == |s|
    ensures forall k :: 0 <= k < |s| ==> r[k] == Lower(s[k])
  {
    seq(|s|, k requires 0 <= k < |s| => Lower(s[k]))
  }

  /** The character as compared by a search: folded to lower case when `fold` holds. */
  function Canon(c: char, fold: bool): char
  {
    if fold then Lower(c) else c
  }

  /** `w` (already in canonical form) occurs in `s` at position `i`. */
  predicate OccursAt(s: string, i: int, w: string, fold: bool)
  {
    0 <= i && i + |w| <= |s| &&
    forall k :: 0 <= k < |w| ==> Canon(s[i + k], fold) == w[k]
  }

  predicate Occurs(s: string, w: string, fold: bool)
  {
    exists i :: 0 <= i <= |s| - |w| && OccursAt(s, i, w, fold)
  }

  /** Python's `pat in s`. */
  predicate Contains(s: string, pat: string)
  {
    Occurs(s, pat, false)
  }

  /** A case-insensitive search for `pat` in `s`, comparing ASCII lower-case forms. */
  predicate ContainsIgnoreCase(s: string, pat: string)
  {
    Occurs(s, LowerAll(pat), true)
  }

  /** A case-folded occurrence in `s` is a plain occurrence in the lower-cased `s`. */
  lemma OccursAtFolded(s: string, i: int, w: string)
    ensures OccursAt(s, i, w, true) <==> OccursAt(LowerAll(s), i, w, false)
  {
    var l := LowerAll(s);
    if 0 <= i && i + |w| <= |s| {
      assert forall j :: 0 <= j < |s| ==> Canon(s[j], true) == l[j];
    }
  }

  /**
   * The case-insensitive search is "lower-case both, then search plainly",
   * in both directions.
   */
  lemma ContainsIgnoreCaseMeans(s: string, pat: string)
    ensures ContainsIgnoreCase(s, pat) <==> Contains(LowerAll(s), LowerAll(pat))
  {
    var w := LowerAll(pat);
    if ContainsIgnoreCase(s, pat) {
      var i :| 0 <= i <= |s| - |w| && OccursAt(s, i, w, true);
      OccursAtFolded(s, i, w);
    }
    if Contains(LowerAll(s), w) {
      var i :| 0 <= i <= |LowerAll(s)| - |w| && OccursAt(LowerAll(s), i, w, false);
      OccursAtFolded(s, i, w);
    }
  }

  lemma {:induction false} OccursAtSlice(s: string, i: int, w: string)
    requires 0 <= i && i + |w| <= |s|
    ensures OccursAt(s, i, w, false) <==> s[i..i + |w|] == w
  {
    if s[i..i + |w|] == w {
      forall k | 0 <= k < |w| ensures s[i + k] == w[k] {
        assert s[i..i + |w|][k] == s[i + k];
      }
    }
  }

  /** An occurrence inside a slice of `s` is an occurrence in `s`. */
  lemma {:induction false} OccursInSlice(s: string, j: int, u: string, i: int, w: string, fold: bool)
    requires 0 <= j && j + |u| <= |s| && s[j..j + |u|] == u
    requires OccursAt(u, i, w, fold)
    ensures OccursAt(s, j + i, w, fold)
  {
    forall k | 0 <= k < |w| ensures Canon(s[j + i + k], fold) == w[k] {
      assert s[j..j + |u|][i + k] == s[j + i + k];
    }
  }

  /** An occurrence inside an occurrence of `u` in `s` is an occurrence in `s`. */
  lemma OccursInOccurrence(s: string, j: int, u: string, i: int, w: string, fold: bool)
    requires OccursAt(s, j, u, false)
    requires OccursAt(u, i, w, fold)
    ensures OccursAt(s, j + i, w, fold)
  {
    forall k | 0 <= k < |w| ensures Canon(s[j + i + k], fold) == w[k] {
      assert s[j + (i + k)] == u[i + k];
    }
  }

  /** Shifting past a first character moves an occurrence one position left. */
  lemma OccursAtCons(x: char, r: string, i: int, w: string, fold: bool)
    requires i >= 1
    ensures OccursAt([x] + r, i, w, fold) <==> OccursAt(r, i - 1, w, fold)
  {
    var xr := [x] + r;
    if OccursAt(r, i - 1, w, fold) {
      forall k | 0 <= k < |w| ensures Canon(xr[i + k], fold) == w[k] {
        assert xr[i + k] == r[i - 1 + k];
      }
    }
    if OccursAt(xr, i, w, fold) {
      forall k | 0 <= k < |w| ensures Canon(r[i - 1 + k], fold) == w[k] {
        assert xr[i + k] == r[i - 1 + k];
      }
    }
  }

  /** An occurrence at the front: the first character matches and the rest follows. */
  lemma OccursAtConsFront(x: char, r: string, w: string, fold: bool)
    requires w != []
    ensures OccursAt([x] + r, 0, w, fold) <==> Canon(x, fold) == w[0] && OccursAt(r, 0, w[1..], fold)
  {
    var xr := [x] + r;
    if Canon(x, fold) == w[0] && OccursAt(r, 0, w[1..], fold) {
      forall k | 0 <= k < |w| ensures Canon(xr[k], fold) == w[k] {
        if k > 0 { assert xr[k] == r[k - 1] && w[k] == w[1..][k - 1]; }
      }
    }
    if OccursAt(xr, 0, w, fold) {
      forall k | 0 <= k < |w[1..]| ensures Canon(r[k], fold) == w[1..][k] {
        assert xr[k + 1] == r[k];
      }
    }
  }

  /**
   * When the replacement is one character that cannot stand in `w`, a result
   * that starts with `w` comes from an input that starts with `w`.
   */
  lemma {:induction false} ReplacePrefixBack(t: string, pat: string, c: char, w: string, fold: bool)
    requires pat != []
    requires Canon(c, fold) !in w
    ensures OccursAt(ReplaceAll(t, pat, [c]), 0, w, fold) ==> OccursAt(t, 0, w, fold)
    decreases |t|
  {
    if |w| == 0 || |t| < |pat| {
    } else if t[..|pat|] == pat {
      var r1 := ReplaceAll(t[|pat|..], pat, [c]);
      assert ReplaceAll(t, pat, [c]) == [c] + r1;
      OccursAtConsFront(c, r1, w, fold);
    } else {
      var r1 := ReplaceAll(t[1..], pat, [c]);
      assert ReplaceAll(t, pat, [c]) == [t[0]] + r1;
      OccursAtConsFront(t[0], r1, w, fold);
      ReplacePrefixBack(t[1..], pat, c, w[1..], fold);
      assert [t[0]] + t[1..] == t;
      OccursAtConsFront(t[0], t[1..], w, fold);
    }
  }

  /**
   * Replacing a pattern by one character that cannot stand in `w` never
   * creates an occurrence of `w`.
   */
  lemma {:induction false} ReplaceOccursBack(t: string, pat: string, c: char, i: int, w: string, fold: bool)
    requires pat != []
    requires Canon(c, fold) !in w
    ensures OccursAt(ReplaceAll(t, pat, [c]), i, w, fold) ==> Occurs(t, w, fold)
    decreases |t|
  {
    var r := ReplaceAll(t, pat, [c]);
    if i <= 0 {
      ReplacePrefixBack(t, pat, c, w, fold);
    } else if |t| < |pat| {
    } else if t[..|pat|] == pat {
      var rest := t[|pat|..];
      assert r == [c] + ReplaceAll(rest, pat, [c]);
      ReplaceOccursBack(rest, pat, c, i - 1, w, fold);
      OccursBackShift(t, |pat|, c, ReplaceAll(rest, pat, [c]), i, w, fold);
    } else {
      var rest := t[1..];
      assert r == [t[0]] + ReplaceAll(rest, pat, [c]);
      ReplaceOccursBack(rest, pat, c, i - 1, w, fold);
      OccursBackShift(t, 1, t[0], ReplaceAll(rest, pat, [c]), i, w, fold);
    }
  }

  /**
   * When an occurrence in `u` implies one in the suffix `t[k..]`, an
   * occurrence in `[x] + u` past its first character implies one in `t`.
   */
  lemma OccursBackShift(t: string, k: int, x: char, u: string, i: int, w: string, fold: bool)
    requires 0 < k <= |t| && i >= 1
    requires OccursAt(u, i - 1, w, fold) ==> Occurs(t[k..], w, fold)
    ensures OccursAt([x] + u, i, w, fold) ==> Occurs(t, w, fold)
  {
    OccursAtCons(x, u, i, w, fold);
    if OccursAt([x] + u, i, w, fold) {
      var rest := t[k..];
      var j :| 0 <= j <= |rest| - |w| && OccursAt(rest, j, w, fold);
      assert rest == t[k..k + |rest|];
      OccursInSlice(t, k, rest, j, w, fold);
    }
  }

  lemma {:induction false} ReplaceKeepsAbsent(t: string, pat: string, c: char, w: string, fold: bool)
    requires pat != []
    requires Canon(c, fold) !in w
    ensures !Occurs(t, w, fold) ==> !Occurs(ReplaceAll(t, pat, [c]), w, fold)
  {
    forall i | OccursAt(ReplaceAll(t, pat, [c]), i, w, fold) ensures Occurs(t, w, fold) {
      ReplaceOccursBack(t, pat, c, i, w, fold);
    }
  }

  /** No occurrence of `pat` starts at position `i` after `pat` was replaced by `c`. */
  lemma {:induction false} ReplaceRemovesAt(s: string, pat: string, c: char, i: int)
    requires pat != []
    requires c !in pat
    ensures !OccursAt(ReplaceAll(s, pat, [c]), i, pat, false)
    decreases |s|
  {
    if i < 0 || |s| < |pat| {
    } else if s[..|pat|] == pat {
      var r1 := ReplaceAll(s[|pat|..], pat, [c]);
      assert ReplaceAll(s, pat, [c]) == [c] + r1;
      if i == 0 {
        OccursAtConsFront(c, r1, pat, false);
      } else {
        OccursAtCons(c, r1, i, pat, false);
        ReplaceRemovesAt(s[|pat|..], pat, c, i - 1);
      }
    } else {
      var r1 := ReplaceAll(s[1..], pat, [c]);
      assert ReplaceAll(s, pat, [c]) == [s[0]] + r1;
      if i == 0 {
        OccursAtConsFront(s[0], r1, pat, false);
        ReplacePrefixBack(s[1..], pat, c, pat[1..], false);
        assert [s[0]] + s[1..] == s;
        OccursAtConsFront(s[0], s[1..], pat, false);
        OccursAtSlice(s, 0, pat);
      } else {
        OccursAtCons(s[0], r1, i, pat, false);
        ReplaceRemovesAt(s[1..], pat, c, i - 1);
      }
    }
  }

  /**
   * After replacing every occurrence of `pat` by a character that `pat` does
   * not contain, no occurrence of `pat` is left.
   */
  lemma {:induction false} ReplaceRemovesAll(s: string, pat: string, c: char)
    requires pat != []
    requires c !in pat
    ensures !Contains(ReplaceAll(s, pat, [c]), pat)
  {
    forall i ensures !OccursAt(ReplaceAll(s, pat, [c]), i, pat, false) {
      ReplaceRemovesAt(s, pat, c, i);
    }
  }

  /**
   * The leftmost occurrence of `pat` becomes `rep`: everything before it is
   * kept, and the replacement carries on after it.
   */
  lemma ReplaceLeftmost(s: string, pat: string, rep: string, i: int)
    requires pat != []
    requires OccursAt(s, i, pat, false)
    requires forall j :: 0 <= j < i ==> !OccursAt(s, j, pat, false)
    ensures ReplaceAll(s, pat, rep) == s[..i] + rep + ReplaceAll(s[i + |pat|..], pat, rep)
  {
    FirstMatchSlices(s, pat, i);
    ReplaceFirstMatch(s, pat, rep, i);
  }

  /** The leftmost occurrence, stated with slices. */
  lemma FirstMatchSlices(s: string, pat: string, i: int)
    requires OccursAt(s, i, pat, false)
    requires forall j :: 0 <= j < i ==> !OccursAt(s, j, pat, false)
    ensures SliceMatch(s, i, pat)
    ensures forall j :: 0 <= j < i ==> !SliceMatch(s, j, pat)
  {
    OccursAtSlice(s, i, pat);
    forall j | 0 <= j < i ensures !SliceMatch(s, j, pat) {
      OccursAtSlice(s, j, pat);
    }
  }

  lemma ReplaceFirstMatch(s: string, pat: string, rep: string, i: int)
    requires pat != [] && SliceMatch(s, i, pat)
    requires forall j :: 0 <= j < i ==> !SliceMatch(s, j, pat)
    ensures ReplaceAll(s, pat, rep) == s[..i] + rep + ReplaceAll(s[i + |pat|..], pat, rep)
  {
    var x, r := s[..i], s[i + |pat|..];
    SplitAtMatch(s, pat, i, x, pat + r);
    ReplaceKeepsPrefix(x, pat + r, pat, rep);
    ReplaceFront(pat, r, rep);
    AppendAssoc(x, rep, ReplaceAll(r, pat, rep));
  }

  /** Text with a match at `i`: the part `x` before it, then the match and the rest, `y`. */
  lemma SplitAtMatch(s: string, pat: string, i: int, x: string, y: string)
    requires SliceMatch(s, i, pat)
    requires forall j :: 0 <= j < i ==> !SliceMatch(s, j, pat)
    requires x == s[..i] && y == pat + s[i + |pat|..]
    ensures s == x + y
    ensures forall j :: 0 <= j < |x| ==> !SliceMatch(x + y, j, pat)
  {
    assert s[i..] == s[i..i + |pat|] + s[i + |pat|..];
    assert s == s[..i] + s[i..];
  }

  lemma AppendAssoc(a: string, b: string, c: string)
    ensures a + (b + c) == a + b + c
  {
  }

  /** `pat` is the slice of `s` from `j`. */
  predicate SliceMatch(s: string, j: int, pat: string)
  {
    0 <= j && j + |pat| <= |s| && s[j..j + |pat|] == pat
  }

  /** Moving past a first character moves a match one position left. */
  lemma SliceMatchCons(c: char, t: string, j: int, pat: string)
    requires 0 <= j
    ensures SliceMatch([c] + t, j + 1, pat) <==> SliceMatch(t, j, pat)
  {
    if j + |pat| <= |t| {
      assert ([c] + t)[j + 1..j + 1 + |pat|] == t[j..j + |pat|];
    }
  }

  /** A prefix in which no match starts is kept as it is. */
  lemma {:induction false} ReplaceKeepsPrefix(x: string, y: string, pat: string, rep: string)
    requires pat != []
    requires forall j :: 0 <= j < |x| ==> !SliceMatch(x + y, j, pat)
    ensures ReplaceAll(x + y, pat, rep) == x + ReplaceAll(y, pat, rep)
    decreases |x|
  {
    if x == [] {
      assert x + y == y;
    } else {
      KeepsPrefixTail(x, y, pat);
      ReplaceKeepsPrefix(x[1..], y, pat, rep);
      KeepsPrefixStep(x, y, pat, rep);
    }
  }

  /** A prefix without the pattern's first character is kept as it is. */
  lemma ReplaceKeepsPlainPrefix(x: string, y: string, pat: string, rep: string)
    requires pat != [] && pat[0] !in x
    ensures ReplaceAll(x + y, pat, rep) == x + ReplaceAll(y, pat, rep)
  {
    forall j | 0 <= j < |x| ensures !SliceMatch(x + y, j, pat) {
      if j + |pat| <= |x + y| {
        assert (x + y)[j..j + |pat|][0] == x[j];
      }
    }
    ReplaceKeepsPrefix(x, y, pat, rep);
  }

  /** No match starts in the rest of the prefix either. */
  lemma KeepsPrefixTail(x: string, y: string, pat: string)
    requires x != []
    requires forall j :: 0 <= j < |x| ==> !SliceMatch(x + y, j, pat)
    ensures forall j :: 0 <= j < |x[1..]| ==> !SliceMatch(x[1..] + y, j, pat)
  {
    var t := x[1..] + y;
    assert x + y == [x[0]] + t;
    forall j | 0 <= j < |x[1..]| ensures !SliceMatch(t, j, pat) {
      SliceMatchCons(x[0], t, j, pat);
      assert !SliceMatch(x + y, j + 1, pat);
    }
  }

  /** The first character of a prefix in which no match starts is kept. */
  lemma KeepsPrefixStep(x: string, y: string, pat: string, rep: string)
    requires pat != [] && x != [] && !SliceMatch(x + y, 0, pat)
    requires ReplaceAll(x[1..] + y, pat, rep) == x[1..] + ReplaceAll(y, pat, rep)
    ensures ReplaceAll(x + y, pat, rep) == x + ReplaceAll(y, pat, rep)
  {
    var s := x + y;
    PrefixStepFacts(x, y, pat);
    assert ReplaceAll(s, pat, rep) == [x[0]] + ReplaceAll(x[1..] + y, pat, rep);
    ConsAppend(x[0], x[1..], [], ReplaceAll(y, pat, rep));
  }

  lemma PrefixStepFacts(x: string, y: string, pat: string)
    requires x != [] && !SliceMatch(x + y, 0, pat)
    ensures (x + y)[1..] == x[1..] + y && (x + y)[0] == x[0]
    ensures |pat| <= |x + y| ==> (x + y)[..|pat|] != pat
    ensures [x[0]] + x[1..] + [] == x
  {
    if |pat| <= |x + y| {
      assert (x + y)[..|pat|] == (x + y)[0..|pat|];
    }
  }

  lemma ConsAppend(x: char, a: string, b: string, c: string)
    ensures [x] + (a + b + c) == ([x] + a) + b + c
  {
  }

  /**
   * A character that cannot be part of the pattern separates the replacement:
   * the text on each side of it is replaced on its own.
   */
  lemma {:induction false} ReplaceAround(x: string, c: char, y: string, pat: string, rep: string)
    requires pat != [] && c !in pat
    ensures ReplaceAll(x + [c] + y, pat, rep) == ReplaceAll(x, pat, rep) + [c] + ReplaceAll(y, pat, rep)
    decreases |x|
  {
    if |x| + 1 + |y| < |pat| {
      AroundShort(x, c, y, pat, rep);
    } else if x == [] {
      AroundFirst(x, c, y, pat, rep);
    } else if |x| >= |pat| && x[..|pat|] == pat {
      ReplaceAround(x[|pat|..], c, y, pat, rep);
      AroundMatch(x, c, y, pat, rep);
    } else {
      ReplaceAround(x[1..], c, y, pat, rep);
      AroundSkip(x, c, y, pat, rep);
    }
  }

  /** `x + [c] + y` cut after `n` characters of `x`. */
  lemma SplitAround(x: string, c: char, y: string, n: int)
    requires 0 <= n <= |x|
    ensures (x + [c] + y)[..n] == x[..n] && (x + [c] + y)[n..] == x[n..] + [c] + y
  {
  }

  /** Text shorter than the pattern is left alone on both sides. */
  lemma AroundShort(x: string, c: char, y: string, pat: string, rep: string)
    requires pat != [] && |x| + 1 + |y| < |pat|
    ensures ReplaceAll(x + [c] + y, pat, rep) == ReplaceAll(x, pat, rep) + [c] + ReplaceAll(y, pat, rep)
  {
  }

  /** The separator starts no match. */
  lemma AroundFirst(x: string, c: char, y: string, pat: string, rep: string)
    requires pat != [] && c !in pat && x == [] && |pat| <= 1 + |y|
    ensures ReplaceAll(x + [c] + y, pat, rep) == ReplaceAll(x, pat, rep) + [c] + ReplaceAll(y, pat, rep)
  {
    var s := [c] + y;
    assert x + [c] + y == s;
    assert s[..|pat|][0] == c;
    assert s[1..] == y;
  }

  /** A match inside `x` is replaced, and the rest follows. */
  lemma AroundMatch(x: string, c: char, y: string, pat: string, rep: string)
    requires pat != [] && |pat| <= |x| && x[..|pat|] == pat
    requires ReplaceAll(x[|pat|..] + [c] + y, pat, rep)
      == ReplaceAll(x[|pat|..], pat, rep) + [c] + ReplaceAll(y, pat, rep)
    ensures ReplaceAll(x + [c] + y, pat, rep) == ReplaceAll(x, pat, rep) + [c] + ReplaceAll(y, pat, rep)
  {
    SplitAround(x, c, y, |pat|);
    var u, v := ReplaceAll(x[|pat|..], pat, rep), ReplaceAll(y, pat, rep);
    assert ReplaceAll(x + [c] + y, pat, rep) == rep + (u + [c] + v);
    assert rep + (u + [c] + v) == (rep + u) + [c] + v;
  }

  /** A character of `x` that starts no match is kept, and the rest follows. */
  lemma AroundSkip(x: string, c: char, y: string, pat: string, rep: string)
    requires pat != [] && c !in pat && x != [] && |pat| <= |x| + 1 + |y|
    requires !(|pat| <= |x| && x[..|pat|] == pat)
    requires ReplaceAll(x[1..] + [c] + y, pat, rep)
      == ReplaceAll(x[1..], pat, rep) + [c] + ReplaceAll(y, pat, rep)
    ensures ReplaceAll(x + [c] + y, pat, rep) == ReplaceAll(x, pat, rep) + [c] + ReplaceAll(y, pat, rep)
  {
    var s := x + [c] + y;
    SplitAround(x, c, y, 1);
    if |pat| <= |x| {
      SplitAround(x, c, y, |pat|);
    } else {
      assert s[..|pat|][|x|] == c;
      assert |x[1..]| < |pat|;
    }
    assert s[..|pat|] != pat;
    assert ReplaceAll(x, pat, rep) == [x[0]] + ReplaceAll(x[1..], pat, rep);
    ConsAppend(x[0], ReplaceAll(x[1..], pat, rep), [c], ReplaceAll(y, pat, rep));
  }

  /** Text without an occurrence of `pat` is left unchanged. */
  lemma {:induction false} ReplaceAbsent(s: string, pat: string, rep: string)
    requires pat != []
    ensures !Contains(s, pat) ==> ReplaceAll(s, pat, rep) == s
    decreases |s|
  {
    if !Contains(s, pat) && |s| >= |pat| {
      OccursAtSlice(s, 0, pat);
      assert !OccursAt(s, 0, pat, false);
      var x, t := s[0], s[1..];
      assert s == [x] + t;
      forall j | 0 <= j <= |t| - |pat| ensures !OccursAt(t, j, pat, false) {
        OccursAtCons(x, t, j + 1, pat, false);
      }
      ReplaceAbsent(t, pat, rep);
    }
  }

  /**
   * A replacement changes nothing when the pattern's first character is never
   * followed by its second one.
   */
  lemma {:induction false} ReplaceNoSecond(s: string, pat: string, rep: string)
    requires |pat| >= 2
    requires forall j :: 0 <= j < |s| - 1 && s[j] == pat[0] ==> s[j + 1] != pat[1]
    ensures ReplaceAll(s, pat, rep) == s
    decreases |s|
  {
    if |s| >= |pat| {
      assert s[..|pat|][0] == s[0] && s[..|pat|][1] == s[1];
      assert forall j :: 0 <= j < |s[1..]| - 1 && s[1..][j] == pat[0] ==> s[1..][j + 1] != pat[1] by {
        forall j | 0 <= j < |s[1..]| - 1 && s[1..][j] == pat[0] ensures s[1..][j + 1] != pat[1] {
          assert s[1..][j] == s[j + 1] && s[1..][j + 1] == s[j + 2];
        }
      }
      ReplaceNoSecond(s[1..], pat, rep);
      assert [s[0]] + s[1..] == s;
    }
  }

  /** A match at the front is replaced and the rest follows. */
  lemma ReplaceFront(pat: string, y: string, rep: string)
    requires pat != []
    ensures ReplaceAll(pat + y, pat, rep) == rep + ReplaceAll(y, pat, rep)
  {
    assert (pat + y)[..|pat|] == pat && (pat + y)[|pat|..] == y;
  }

  /** A replacement whose pattern's first character is absent changes nothing. */
  lemma {:induction false} ReplaceAbsentFirst(s: string, pat: string, rep: string)
    requires pat != []
    requires pat[0] !in s
    ensures ReplaceAll(s, pat, rep) == s
    decreases |s|
  {
    if |s| >= |pat| {
      assert s[..|pat|][0] == s[0];
      ReplaceAbsentFirst(s[1..], pat, rep);
      assert [s[0]] + s[1..] == s;
    }
  }
}
