/**
 * Python's whitespace handling as used by `' '.join(text.split())` and
 * `text.strip()`. Like CPython, it scans by position: `split()` skips a run
 * of whitespace, takes the following run of non-whitespace as a word, and
 * repeats; `strip()` finds the first and last non-whitespace positions.
 */
module Whitespace {
  import opened Strings

  /** The characters for which Python's `str.isspace()` holds. */
  predicate IsWhitespace(c: char)
  {
    var n := c as int;
    n == 0x20 || 0x09 <= n <= 0x0D || 0x1C <= n <= 0x1F || n == 0x85 || n == 0xA0 ||
    n == 0x1680 || 0x2000 <= n <= 0x200A || n == 0x2028 || n == 0x2029 ||
    n == 0x202F || n == 0x205F || n == 0x3000
  }

  /**
   * Whitespace normal form: every whitespace character is a plain space with a
   * non-whitespace character on each side, so there is no leading or trailing
   * whitespace, no two adjacent whitespace characters and no tab or newline.
   */
  ghost predicate WhitespaceNormal(s: string)
  {
    (forall i :: 0 <= i < |s| && IsWhitespace(s[i]) ==> s[i] == ' ' && 0 < i < |s| - 1) &&
    (forall i :: 0 < i < |s| ==> !(IsWhitespace(s[i - 1]) && IsWhitespace(s[i])))
  }

  /** A word as `str.split()` produces it: non-empty, without whitespace. */
  ghost predicate IsWord(w: string)
  {
    w != [] && forall k :: 0 <= k < |w| ==> !IsWhitespace(w[k])
  }

  /** The first position at or after `i` that holds no whitespace (or `|s|`). */
  function SkipSpaces(s: string, i: int): (r: int)
    requires 0 <= i <= |s|
    ensures i <= r <= |s|
    ensures forall k :: i <= k < r ==> IsWhitespace(s[k])
    ensures r < |s| ==> !IsWhitespace(s[r])
    decreases |s| - i
  {
    if i < |s| && IsWhitespace(s[i]) then SkipSpaces(s, i + 1) else i
  }

  /** The first position at or after `i` that holds whitespace (or `|s|`). */
  function WordEnd(s: string, i: int): (r: int)
    requires 0 <= i <= |s|
    ensures i <= r <= |s|
    ensures forall k :: i <= k < r ==> !IsWhitespace(s[k])
    ensures r < |s| ==> IsWhitespace(s[r])
    decreases |s| - i
  {
    if i < |s| && !IsWhitespace(s[i]) then WordEnd(s, i + 1) else i
  }

  /** One past the last position in `[lo, j)` that holds no whitespace (or `lo`). */
  function TrimEndAt(s: string, lo: int, j: int): (r: int)
    requires 0 <= lo <= j <= |s|
    ensures lo <= r <= j
    ensures forall k :: r <= k < j ==> IsWhitespace(s[k])
    ensures r > lo ==> !IsWhitespace(s[r - 1])
    decreases j
  {
    if j > lo && IsWhitespace(s[j - 1]) then TrimEndAt(s, lo, j - 1) else j
  }

  /** Python's `s.strip()`. */
  function Strip(s: string): string
  {
    var i := SkipSpaces(s, 0);
    s[i..TrimEndAt(s, i, |s|)]
  }

  /** The words of `s[i..]`, in order. */
  function SplitFrom(s: string, i: int): seq<string>
    requires 0 <= i <= |s|
    decreases |s| - i
  {
    var a := SkipSpaces(s, i);
    if a == |s| then []
    else
      var b := WordEnd(s, a);
      [s[a..b]] + SplitFrom(s, b)
  }

  /** Python's `s.split()` with no separator: the maximal runs of non-whitespace, in order. */
  function Split(s: string): seq<string>
  {
    SplitFrom(s, 0)
  }

  /** Python's `' '.join(ws)`. */
  function JoinSpaces(ws: seq<string>): string
  {
    if |ws| == 0 then []
    else if |ws| == 1 then ws[0]
    else ws[0] + " " + JoinSpaces(ws[1..])
  }

  /** `' '.join(s.split())`: every whitespace run becomes one space and both ends are trimmed. */
  function Collapse(s: string): string
  {
    JoinSpaces(Split(s))
  }

  /**
   * `strip()` removes whitespace at the two ends and nothing else: the result
   * is a slice of the input with only whitespace around it, and it has no
   * whitespace at either end.
   */
  lemma StripTrims(s: string)
    ensures |Strip(s)| <= |s|
    ensures Strip(s) != [] ==> !IsWhitespace(Strip(s)[0]) && !IsWhitespace(Strip(s)[|Strip(s)| - 1])
    ensures exists i, j ::
              0 <= i <= j <= |s| && Strip(s) == s[i..j] &&
              (forall k :: 0 <= k < i ==> IsWhitespace(s[k])) &&
              (forall k :: j <= k < |s| ==> IsWhitespace(s[k]))
  {
    var i := SkipSpaces(s, 0);
    var j := TrimEndAt(s, i, |s|);
    assert forall k :: j <= k < |s| ==> IsWhitespace(s[k]);
    if i < j {
      assert Strip(s)[0] == s[i];
      assert Strip(s)[|Strip(s)| - 1] == s[j - 1];
    }
  }

  /** `strip()` changes nothing on text in whitespace normal form. */
  lemma StripNormal(s: string)
    requires WhitespaceNormal(s)
    ensures Strip(s) == s
  {
    if s != [] {
      assert !IsWhitespace(s[0]) && !IsWhitespace(s[|s| - 1]);
      assert s[0..|s|] == s;
    }
  }

  /** Every piece `split()` produces is a word. */
  lemma {:induction false} SplitFromWords(s: string, i: int)
    requires 0 <= i <= |s|
    ensures forall k :: 0 <= k < |SplitFrom(s, i)| ==> IsWord(SplitFrom(s, i)[k])
    decreases |s| - i
  {
    var a := SkipSpaces(s, i);
    if a < |s| {
      var b := WordEnd(s, a);
      SplitFromWords(s, b);
      var w := s[a..b];
      assert IsWord(w) by {
        forall k | 0 <= k < |w| ensures !IsWhitespace(w[k]) { assert w[k] == s[a + k]; }
      }
      var ws := SplitFrom(s, i);
      assert ws == [w] + SplitFrom(s, b);
      forall k | 0 <= k < |ws| ensures IsWord(ws[k]) {
        if k > 0 { assert ws[k] == SplitFrom(s, b)[k - 1]; }
      }
    }
  }

  /** Joining words with single spaces gives text in whitespace normal form, empty only for no words. */
  lemma {:induction false} JoinSpacesNormal(ws: seq<string>)
    requires forall k :: 0 <= k < |ws| ==> IsWord(ws[k])
    ensures WhitespaceNormal(JoinSpaces(ws))
    ensures ws != [] <==> JoinSpaces(ws) != []
  {
    if |ws| > 1 {
      var tail := JoinSpaces(ws[1..]);
      var r := ws[0] + " " + tail;
      assert forall k :: 0 <= k < |ws[1..]| ==> IsWord(ws[1..][k]) by {
        forall k | 0 <= k < |ws[1..]| ensures IsWord(ws[1..][k]) { assert ws[1..][k] == ws[k + 1]; }
      }
      JoinSpacesNormal(ws[1..]);
      assert IsWord(ws[0]);
      assert !IsWhitespace(tail[0]);
      assert forall i :: |ws[0]| < i < |r| ==> r[i] == tail[i - |ws[0]| - 1];
    } else if |ws| == 1 {
      assert IsWord(ws[0]);
    }
  }

  lemma {:induction false} JoinSpacesCons(w: string, ws: seq<string>)
    requires ws != []
    ensures JoinSpaces([w] + ws) == w + " " + JoinSpaces(ws)
  {
    assert ([w] + ws)[1..] == ws;
  }

  /** The words of `s[i..]` joined by spaces take no more room than `s[i..]` without its leading whitespace. */
  lemma {:induction false} SplitFromLength(s: string, i: int)
    requires 0 <= i <= |s|
    ensures |JoinSpaces(SplitFrom(s, i))| <= |s| - SkipSpaces(s, i)
    decreases |s| - i
  {
    var a := SkipSpaces(s, i);
    if a < |s| {
      var b := WordEnd(s, a);
      var more := SplitFrom(s, b);
      assert SplitFrom(s, i) == [s[a..b]] + more;
      if more != [] {
        SplitFromLength(s, b);
        assert b < |s| && IsWhitespace(s[b]);
        JoinSpacesCons(s[a..b], more);
      }
    }
  }

  /** The collapsed text is in whitespace normal form and is never longer than its input. */
  lemma CollapseNormal(s: string)
    ensures WhitespaceNormal(Collapse(s))
    ensures |Collapse(s)| <= |s|
  {
    SplitFromWords(s, 0);
    JoinSpacesNormal(Split(s));
    SplitFromLength(s, 0);
  }

  /**
   * In a text in whitespace normal form, the words from a non-whitespace
   * position on join back to the rest of the text.
   */
  lemma {:induction false} SplitFromNormal(s: string, i: int)
    requires WhitespaceNormal(s)
    requires 0 <= i <= |s| && (i < |s| ==> !IsWhitespace(s[i]))
    ensures JoinSpaces(SplitFrom(s, i)) == s[i..]
    ensures i < |s| ==> SplitFrom(s, i) != []
    decreases |s| - i, 1
  {
    if i < |s| {
      if WordEnd(s, i) < |s| {
        SplitFromNormalWord(s, i);
      } else {
        var b := NormalWordEnd(s, i);
        SplitFromLastWord(s, i);
      }
    }
  }

  /** The case of a word followed by more text. */
  lemma {:induction false} SplitFromNormalWord(s: string, i: int)
    requires WhitespaceNormal(s)
    requires 0 <= i < |s| && !IsWhitespace(s[i]) && WordEnd(s, i) < |s|
    ensures JoinSpaces(SplitFrom(s, i)) == s[i..] && SplitFrom(s, i) != []
    decreases |s| - i, 0
  {
    var b := NormalWordEnd(s, i);
    SplitFromNormal(s, b + 1);
    SplitFromWordSpace(s, i, b);
  }

  /** A word, one space, then words that already join back to the rest of the text. */
  lemma SplitFromWordSpace(s: string, i: int, b: int)
    requires 0 <= i < b < |s| && SkipSpaces(s, i) == i && WordEnd(s, i) == b
    requires s[b] == ' ' && SkipSpaces(s, b) == b + 1
    requires JoinSpaces(SplitFrom(s, b + 1)) == s[b + 1..] && SplitFrom(s, b + 1) != []
    ensures JoinSpaces(SplitFrom(s, i)) == s[i..] && SplitFrom(s, i) != []
  {
    var more := SplitFrom(s, b);
    assert SplitFrom(s, i) == [s[i..b]] + more;
    assert more == SplitFrom(s, b + 1);
    JoinSpacesCons(s[i..b], more);
    SliceAtSpace(s, i, b);
  }

  /** A word that runs to the end of the text. */
  lemma {:induction false} SplitFromLastWord(s: string, i: int)
    requires 0 <= i < |s| && SkipSpaces(s, i) == i && WordEnd(s, i) == |s|
    ensures JoinSpaces(SplitFrom(s, i)) == s[i..] && SplitFrom(s, i) != []
  {
    assert SplitFrom(s, |s|) == [];
    assert SplitFrom(s, i) == [s[i..|s|]];
  }

  /** In normal text a word ends at the end of the text or at one space followed by the next word. */
  lemma NormalWordEnd(s: string, i: int) returns (b: int)
    requires WhitespaceNormal(s)
    requires 0 <= i < |s| && !IsWhitespace(s[i])
    ensures SkipSpaces(s, i) == i && b == WordEnd(s, i)
    ensures b < |s| ==> s[b] == ' ' && b + 1 < |s| && !IsWhitespace(s[b + 1]) && SkipSpaces(s, b) == b + 1
  {
    b := WordEnd(s, i);
  }

  lemma SliceAtSpace(s: string, i: int, b: int)
    requires 0 <= i <= b < |s| && s[b] == ' '
    ensures s[i..] == s[i..b] + " " + s[b + 1..]
  {
  }

  /** Collapsing changes nothing on text already in whitespace normal form. */
  lemma CollapseFixesNormal(s: string)
    requires WhitespaceNormal(s)
    ensures Collapse(s) == s
  {
    SplitFromNormal(s, 0);
  }

  /** Collapsing twice is collapsing once. */
  lemma CollapseIdempotent(s: string)
    ensures Collapse(Collapse(s)) == Collapse(s)
  {
    CollapseNormal(s);
    CollapseFixesNormal(Collapse(s));
  }

  /** Collapsing keeps the words: only whitespace is removed or changed. */
  lemma CollapseKeepsWords(s: string)
    ensures Split(Collapse(s)) == Split(s)
  {
    SplitFromWords(s, 0);
    SplitJoin(Split(s));
  }

  /** Splitting words joined by single spaces gives the words back. */
  lemma SplitJoin(ws: seq<string>)
    requires forall k :: 0 <= k < |ws| ==> IsWord(ws[k])
    ensures Split(JoinSpaces(ws)) == ws
  {
    var s := JoinSpaces(ws);
    JoinSpacesNormal(ws);
    SplitFromNormal(s, 0);
    SplitFromWords(s, 0);
    assert s[0..] == s;
    JoinSpacesInjective(Split(s), ws);
  }

  /** Different lists of words join to different texts. */
  lemma {:induction false} JoinSpacesInjective(ws: seq<string>, vs: seq<string>)
    requires forall k :: 0 <= k < |ws| ==> IsWord(ws[k])
    requires forall k :: 0 <= k < |vs| ==> IsWord(vs[k])
    requires JoinSpaces(ws) == JoinSpaces(vs)
    ensures ws == vs
    decreases |ws|
  {
    JoinSpacesNormal(ws);
    JoinSpacesNormal(vs);
    if ws != [] && vs != [] {
      var s := JoinSpaces(ws);
      var w, v := ws[0], vs[0];
      JoinShape(ws);
      JoinShape(vs);
      if |w| < |v| {
        WordCharAt(s, v, |w|);
        assert false;
      } else if |v| < |w| {
        WordCharAt(s, w, |v|);
        assert false;
      }
      assert w == s[..|w|] == v;
      if |ws| > 1 && |vs| > 1 {
        JoinSpacesInjective(ws[1..], vs[1..]);
        assert ws == [w] + ws[1..] && vs == [v] + vs[1..];
      }
    }
  }

  /** Inside a word the text starts with, there is no whitespace. */
  lemma WordCharAt(s: string, v: string, k: int)
    requires IsWord(v) && |v| <= |s| && s[..|v|] == v && 0 <= k < |v|
    ensures !IsWhitespace(s[k])
  {
    assert s[k] == v[k];
  }

  /** Words joined by spaces: the first word, then a space and the rest, if there is more. */
  lemma JoinShape(ws: seq<string>)
    requires |ws| >= 1
    ensures var s := JoinSpaces(ws); var w := ws[0];
      |w| <= |s| && s[..|w|] == w &&
      (|ws| == 1 ==> |s| == |w|) &&
      (|ws| > 1 ==> |s| > |w| && s[|w|] == ' ' && s[|w| + 1..] == JoinSpaces(ws[1..]))
  {
    if |ws| > 1 {
      var s := JoinSpaces(ws);
      assert s == ws[0] + " " + JoinSpaces(ws[1..]);
      assert s[..|ws[0]|] == ws[0];
      assert s[|ws[0]| + 1..] == JoinSpaces(ws[1..]);
    }
  }

  /** `w` stands at position `a` of `s` with whitespace or an end of the text on either side. */
  ghost predicate RunAt(s: string, a: int, w: string)
  {
    0 <= a && a + |w| <= |s| && s[a..a + |w|] == w &&
    (a == 0 || IsWhitespace(s[a - 1])) && (a + |w| == |s| || IsWhitespace(s[a + |w|]))
  }

  /**
   * `ws` stands at the positions `starts` of `s[i..]`: each piece with
   * whitespace around it, the pieces in increasing order and apart, and every
   * non-whitespace position from `i` on inside one of them.
   */
  ghost predicate RunsFrom(s: string, i: int, ws: seq<string>, starts: seq<int>)
  {
    RunsPlaced(s, i, ws, starts) && RunsApart(ws, starts) && RunsCover(s, i, ws, starts)
  }

  ghost predicate RunsPlaced(s: string, i: int, ws: seq<string>, starts: seq<int>)
  {
    |starts| == |ws| &&
    forall k :: 0 <= k < |ws| ==> i <= starts[k] && RunAt(s, starts[k], ws[k])
  }

  ghost predicate RunsApart(ws: seq<string>, starts: seq<int>)
  {
    |starts| == |ws| &&
    forall k, l :: 0 <= k < l < |ws| ==> starts[k] + |ws[k]| < starts[l]
  }

  ghost predicate RunsCover(s: string, i: int, ws: seq<string>, starts: seq<int>)
  {
    |starts| == |ws| &&
    forall p :: 0 <= p < |s| && i <= p && !IsWhitespace(s[p]) ==>
      exists k :: 0 <= k < |ws| && starts[k] <= p < starts[k] + |ws[k]|
  }

  /** Where the pieces of `SplitFrom(s, i)` start in `s`. */
  ghost function SplitStarts(s: string, i: int): (r: seq<int>)
    requires 0 <= i <= |s|
    ensures |r| == |SplitFrom(s, i)|
    ensures forall k :: 0 <= k < |r| ==> SkipSpaces(s, i) <= r[k]
    decreases |s| - i
  {
    var a := SkipSpaces(s, i);
    if a == |s| then [] else [a] + SplitStarts(s, WordEnd(s, a))
  }

  /** Each piece of `s[i..]` stands at its start between whitespace or the ends of the text. */
  lemma {:induction false} SplitFromPlaced(s: string, i: int)
    requires 0 <= i <= |s| && (i == 0 || i == |s| || IsWhitespace(s[i]))
    ensures RunsPlaced(s, i, SplitFrom(s, i), SplitStarts(s, i))
    decreases |s| - i
  {
    var a := SkipSpaces(s, i);
    if a < |s| {
      var b := WordEnd(s, a);
      SplitFromPlaced(s, b);
      FirstRun(s, i);
      PlacedCons(s, i, a, s[a..b], SplitFrom(s, b), SplitStarts(s, b));
    }
  }

  /** The pieces of `s[i..]` come in increasing order with whitespace between them. */
  lemma {:induction false} SplitFromApart(s: string, i: int)
    requires 0 <= i <= |s|
    ensures RunsApart(SplitFrom(s, i), SplitStarts(s, i))
    decreases |s| - i
  {
    var a := SkipSpaces(s, i);
    if a < |s| {
      var b := WordEnd(s, a);
      SplitFromApart(s, b);
      StartsAfterWord(s, b, SplitStarts(s, b));
      ApartCons(a, s[a..b], SplitFrom(s, b), SplitStarts(s, b));
    }
  }

  /** Every non-whitespace position of `s[i..]` lies in one of its pieces. */
  lemma {:induction false} SplitFromCover(s: string, i: int)
    requires 0 <= i <= |s|
    ensures RunsCover(s, i, SplitFrom(s, i), SplitStarts(s, i))
    decreases |s| - i
  {
    var a := SkipSpaces(s, i);
    if a < |s| {
      var b := WordEnd(s, a);
      SplitFromCover(s, b);
      CoverCons(s, i, a, s[a..b], SplitFrom(s, b), SplitStarts(s, b));
    }
  }

  /** The first word of `s[i..]` stands between whitespace or the ends of the text. */
  lemma FirstRun(s: string, i: int)
    requires 0 <= i <= |s| && (i == 0 || i == |s| || IsWhitespace(s[i]))
    requires SkipSpaces(s, i) < |s|
    ensures var a := SkipSpaces(s, i); RunAt(s, a, s[a..WordEnd(s, a)])
  {
    var a := SkipSpaces(s, i);
    var b := WordEnd(s, a);
    assert a + |s[a..b]| == b;
    if a > i { assert i <= a - 1 < a; }
  }

  /** Positions of runs found from a whitespace position `b` on lie past `b`. */
  lemma StartsAfterWord(s: string, b: int, starts: seq<int>)
    requires 0 <= b <= |s| && (b < |s| ==> IsWhitespace(s[b]))
    requires |starts| == |SplitFrom(s, b)|
    requires forall k :: 0 <= k < |starts| ==> SkipSpaces(s, b) <= starts[k]
    ensures forall k :: 0 <= k < |starts| ==> b < starts[k]
  {
    if b == |s| {
      assert SplitFrom(s, b) == [];
    }
  }

  lemma PlacedCons(s: string, i: int, a: int, w: string, ws: seq<string>, starts: seq<int>)
    requires i <= a && RunAt(s, a, w)
    requires RunsPlaced(s, a + |w|, ws, starts)
    ensures RunsPlaced(s, i, [w] + ws, [a] + starts)
  {
    var ws', starts' := [w] + ws, [a] + starts;
    forall k | 0 < k < |ws'| ensures starts'[k] == starts[k - 1] && ws'[k] == ws[k - 1] {}
  }

  lemma ApartCons(a: int, w: string, ws: seq<string>, starts: seq<int>)
    requires RunsApart(ws, starts)
    requires forall k :: 0 <= k < |starts| ==> a + |w| < starts[k]
    ensures RunsApart([w] + ws, [a] + starts)
  {
    var ws', starts' := [w] + ws, [a] + starts;
    forall k | 0 < k < |ws'| ensures starts'[k] == starts[k - 1] && ws'[k] == ws[k - 1] {}
  }

  lemma CoverCons(s: string, i: int, a: int, w: string, ws: seq<string>, starts: seq<int>)
    requires 0 <= i <= a && a + |w| <= |s|
    requires forall p :: i <= p < a ==> IsWhitespace(s[p])
    requires RunsCover(s, a + |w|, ws, starts)
    ensures RunsCover(s, i, [w] + ws, [a] + starts)
  {
    var ws', starts' := [w] + ws, [a] + starts;
    forall p | 0 <= p < |s| && i <= p && !IsWhitespace(s[p])
      ensures exists k :: 0 <= k < |ws'| && starts'[k] <= p < starts'[k] + |ws'[k]|
    {
      if p < a + |w| {
        assert starts'[0] <= p < starts'[0] + |ws'[0]|;
      } else {
        var k :| 0 <= k < |ws| && starts[k] <= p < starts[k] + |ws[k]|;
        assert starts'[k + 1] <= p < starts'[k + 1] + |ws'[k + 1]|;
      }
    }
  }

  /**
   * `split()` returns exactly the maximal runs of non-whitespace of `s`, in
   * order: each piece stands in `s` between whitespace or the ends of the
   * text, the pieces do not overlap, and every non-whitespace character of
   * `s` lies in one of them.
   */
  lemma SplitRuns(s: string)
    ensures forall k :: 0 <= k < |Split(s)| ==> IsWord(Split(s)[k])
    ensures exists starts :: RunsFrom(s, 0, Split(s), starts)
  {
    SplitFromWords(s, 0);
    SplitFromPlaced(s, 0);
    SplitFromApart(s, 0);
    SplitFromCover(s, 0);
    assert RunsFrom(s, 0, Split(s), SplitStarts(s, 0));
  }

  /** Every word of `s[i..]` occurs in `s`. */
  lemma {:induction false} SplitFromWordOccurs(s: string, i: int, k: int) returns (j: int)
    requires 0 <= i <= |s| && 0 <= k < |SplitFrom(s, i)|
    ensures OccursAt(s, j, SplitFrom(s, i)[k], false)
    decreases |s| - i
  {
    var a := SkipSpaces(s, i);
    var b := WordEnd(s, a);
    assert SplitFrom(s, i) == [s[a..b]] + SplitFrom(s, b);
    if k == 0 {
      j := a;
      OccursAtSlice(s, a, s[a..b]);
    } else {
      assert SplitFrom(s, i)[k] == SplitFrom(s, b)[k - 1];
      j := SplitFromWordOccurs(s, b, k - 1);
    }
  }

  /**
   * An occurrence of a pattern without spaces in words joined by spaces lies
   * inside one of the words.
   */
  lemma {:induction false} JoinOccursBack(ws: seq<string>, i: int, w: string, fold: bool)
    requires w != [] && Canon(' ', fold) !in w
    ensures OccursAt(JoinSpaces(ws), i, w, fold) ==>
      exists k, j :: 0 <= k < |ws| && OccursAt(ws[k], j, w, fold)
  {
    if |ws| == 1 {
      if OccursAt(JoinSpaces(ws), i, w, fold) {
        assert OccursAt(ws[0], i, w, fold);
      }
    } else if |ws| > 1 {
      var head := ws[0];
      var tail := JoinSpaces(ws[1..]);
      var r := head + " " + tail;
      assert JoinSpaces(ws) == r;
      if i + |w| <= |head| {
        if OccursAt(r, i, w, fold) {
          forall m | 0 <= m < |w| ensures Canon(head[i + m], fold) == w[m] {
            assert r[i + m] == head[i + m];
          }
          assert OccursAt(head, i, w, fold);
        }
      } else if i <= |head| {
        assert r[|head|] == ' ';
        if 0 <= i {
          assert Canon(r[i + (|head| - i)], fold) != w[|head| - i];
        }
      } else {
        var i1 := i - |head| - 1;
        JoinOccursBack(ws[1..], i1, w, fold);
        if OccursAt(r, i, w, fold) {
          forall m | 0 <= m < |w| ensures Canon(tail[i1 + m], fold) == w[m] {
            assert r[i + m] == tail[i1 + m];
          }
          assert OccursAt(tail, i1, w, fold);
          var k, j :| 0 <= k < |ws[1..]| && OccursAt(ws[1..][k], j, w, fold);
          assert ws[1..][k] == ws[k + 1];
          assert OccursAt(ws[k + 1], j, w, fold);
        }
      }
    }
  }

  /** Collapsing whitespace creates no occurrence of a pattern that has no space in it. */
  lemma CollapseOccursBack(s: string, w: string, fold: bool)
    requires Canon(' ', fold) !in w
    ensures Occurs(Collapse(s), w, fold) ==> Occurs(s, w, fold)
  {
    if w == [] {
      assert OccursAt(s, 0, w, fold);
    } else {
      forall i | OccursAt(Collapse(s), i, w, fold) ensures Occurs(s, w, fold) {
        JoinOccursBack(Split(s), i, w, fold);
        var k, j :| 0 <= k < |Split(s)| && OccursAt(Split(s)[k], j, w, fold);
        var j0 := SplitFromWordOccurs(s, 0, k);
        OccursInOccurrence(s, j0, Split(s)[k], j, w, fold);
      }
    }
  }

  /** No character of `s` is whitespace (stated by recursion, so that it can be checked on literals). */
  predicate NoWhitespace(s: string)
  {
    s == [] || (!IsWhitespace(s[0]) && NoWhitespace(s[1..]))
  }

  /**
   * `NoWhitespace` means the same as the quantified statement the rest of the
   * model reasons with; it exists only so that a literal can be checked by
   * unfolding it character by character.
   */
  lemma {:induction false} NoWhitespaceAt(s: string)
    ensures NoWhitespace(s) <==> forall i :: 0 <= i < |s| ==> !IsWhitespace(s[i])
  {
    if s != [] {
      NoWhitespaceAt(s[1..]);
      assert forall i :: 1 <= i < |s| ==> s[i] == s[1..][i - 1];
    }
  }

  /** Text without whitespace is in whitespace normal form, so `clean_text`'s whitespace steps keep it. */
  lemma {:induction false} NoWhitespaceFixed(s: string)
    requires NoWhitespace(s)
    ensures WhitespaceNormal(s) && Collapse(s) == s && Strip(s) == s
  {
    NoWhitespaceAt(s);
    CollapseFixesNormal(s);
    StripNormal(s);
  }
}
