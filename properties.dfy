/**
 * What the cleaning steps guarantee about the rows written out, stated
 * against the rows read: which rows survive, in what order, and what their
 * cells look like.
 */
module PipelineProperties {
  import opened Wrappers
  import opened Strings
  import opened Whitespace
  import opened CleanText
  import opened Sequences
  import opened Dataset
  import opened Pipeline

  /** A row that passes the first two steps: it is complete and its generated answer reports no error. */
  predicate ValidRow(row: Row)
  {
    Complete(row) && NoErrorMarker(row)
  }

  /** The question ids of the valid rows of `s`. */
  function ValidIds(s: seq<Row>): set<Option<int>>
    decreases |s|
  {
    if s == [] then {}
    else
      var n := |s| - 1;
      ValidIds(s[..n]) + (if ValidRow(s[n]) then {s[n].questionId} else {})
  }

  lemma {:induction false} ValidIdsMeans(s: seq<Row>, x: Option<int>)
    ensures x in ValidIds(s) <==> exists j :: 0 <= j < |s| && ValidRow(s[j]) && s[j].questionId == x
    decreases |s|
  {
    if s != [] {
      var n := |s| - 1;
      ValidIdsMeans(s[..n], x);
      if x in ValidIds(s[..n]) {
        var j :| 0 <= j < n && ValidRow(s[..n][j]) && s[..n][j].questionId == x;
        assert s[j] == s[..n][j];
      }
      if exists j :: 0 <= j < |s| && ValidRow(s[j]) && s[j].questionId == x {
        var j :| 0 <= j < |s| && ValidRow(s[j]) && s[j].questionId == x;
        if j < n {
          assert s[..n][j] == s[j];
        }
      }
    }
  }

  /** Row `i` is valid and no valid row before it has the same question id. */
  ghost predicate FirstValidOfItsId(raw: seq<Row>, i: int)
    requires 0 <= i < |raw|
  {
    ValidRow(raw[i]) && raw[i].questionId !in ValidIds(raw[..i])
  }

  /**
   * Row `i` is written out: it is the first valid row of its id and both of
   * its cleaned answers are long enough. An earlier valid row of the same id
   * removes it even when that earlier row is itself too short, because
   * duplicates are dropped before the length filter.
   */
  ghost predicate Kept(raw: seq<Row>, i: int, minLength: int)
    requires 0 <= i < |raw|
  {
    FirstValidOfItsId(raw, i) && LongEnough(CleanRow(raw[i]), minLength)
  }

  /** A single pass over the input: the cleaned form of each kept row, in input order. */
  ghost function Reference(raw: seq<Row>, minLength: int): seq<Row>
    decreases |raw|
  {
    if raw == [] then []
    else
      var n := |raw| - 1;
      Reference(raw[..n], minLength) + (if Kept(raw, n, minLength) then [CleanRow(raw[n])] else [])
  }

  lemma CleanAllSnoc(s: seq<Row>, x: Row)
    ensures CleanAll(s + [x]) == CleanAll(s) + [CleanRow(x)]
  {
  }

  /** The valid rows of a longer input. */
  lemma WithoutErrorsSnoc(raw: seq<Row>)
    requires raw != []
    ensures var n := |raw| - 1;
      WithoutErrors(raw) == WithoutErrors(raw[..n]) + (if ValidRow(raw[n]) then [raw[n]] else [])
  {
    var n := |raw| - 1;
    var init := raw[..n];
    assert raw == init + [raw[n]];
    FilterSnoc(init, raw[n], Complete);
    assert WithoutMissing(raw) == WithoutMissing(init) + (if Complete(raw[n]) then [raw[n]] else []);
    if Complete(raw[n]) {
      FilterSnoc(WithoutMissing(init), raw[n], NoErrorMarker);
      assert WithoutErrors(raw) == WithoutErrors(init) + (if NoErrorMarker(raw[n]) then [raw[n]] else []);
    } else {
      assert WithoutMissing(raw) == WithoutMissing(init);
    }
  }

  /** The cleaned rows of a longer input: one more row when the new one is valid. */
  lemma TextCleanedSnoc(raw: seq<Row>)
    requires raw != []
    ensures var n := |raw| - 1;
      TextCleaned(raw) == TextCleaned(raw[..n]) + (if ValidRow(raw[n]) then [CleanRow(raw[n])] else [])
  {
    var n := |raw| - 1;
    WithoutErrorsSnoc(raw);
    if ValidRow(raw[n]) {
      CleanAllSnoc(WithoutErrors(raw[..n]), raw[n]);
    }
  }

  /** The ids left after cleaning are exactly those of the valid input rows. */
  lemma {:induction false} IdsOfTextCleaned(raw: seq<Row>)
    ensures IdsOf(TextCleaned(raw)) == ValidIds(raw)
    decreases |raw|
  {
    if raw != [] {
      var n := |raw| - 1;
      var t := TextCleaned(raw[..n]);
      IdsOfTextCleaned(raw[..n]);
      TextCleanedSnoc(raw);
      if ValidRow(raw[n]) {
        assert TextCleaned(raw) == t + [CleanRow(raw[n])];
        IdsOfSnoc(t, CleanRow(raw[n]));
      } else {
        assert TextCleaned(raw) == t;
      }
    }
  }

  /** The deduplicated rows of a longer input: one more row when the new one is the first valid row of its id. */
  lemma WithoutDuplicatesSnoc(raw: seq<Row>)
    requires raw != []
    ensures var n := |raw| - 1;
      WithoutDuplicates(raw) ==
      WithoutDuplicates(raw[..n]) + (if FirstValidOfItsId(raw, n) then [CleanRow(raw[n])] else [])
  {
    var n := |raw| - 1;
    var t := TextCleaned(raw[..n]);
    var c := CleanRow(raw[n]);
    TextCleanedSnoc(raw);
    if ValidRow(raw[n]) {
      assert TextCleaned(raw) == t + [c];
      IdsOfTextCleaned(raw[..n]);
      DedupSnoc(t, c);
    } else {
      assert TextCleaned(raw) == t;
    }
  }

  /** The rows written out for a longer input: one more row exactly when the new one is kept. */
  lemma CleanedSnoc(raw: seq<Row>, minLength: int)
    requires raw != []
    ensures var n := |raw| - 1;
      Cleaned(raw, minLength) ==
      Cleaned(raw[..n], minLength) + (if Kept(raw, n, minLength) then [CleanRow(raw[n])] else [])
  {
    var n := |raw| - 1;
    var d := WithoutDuplicates(raw[..n]);
    var c := CleanRow(raw[n]);
    var keep := KeepLong(minLength);
    WithoutDuplicatesSnoc(raw);
    assert Cleaned(raw, minLength) == Filter(WithoutDuplicates(raw), keep);
    assert Cleaned(raw[..n], minLength) == Filter(d, keep);
    var first := FirstValidOfItsId(raw, n);
    FilterSnocIf(d, c, first, keep);
    assert keep(c) == LongEnough(c, minLength);
  }

  /** The five steps together keep exactly the rows the single pass keeps. */
  lemma {:induction false} CleanedIsReference(raw: seq<Row>, minLength: int)
    ensures Cleaned(raw, minLength) == Reference(raw, minLength)
    decreases |raw|
  {
    if raw != [] {
      CleanedIsReference(raw[..|raw| - 1], minLength);
      CleanedSnoc(raw, minLength);
    }
  }

  /** Whether a row is kept does not depend on the rows after it. */
  lemma KeptPrefix(raw: seq<Row>, n: int, i: int, minLength: int)
    requires 0 <= i < n <= |raw|
    ensures Kept(raw[..n], i, minLength) == Kept(raw, i, minLength)
  {
    assert raw[..n][..i] == raw[..i];
  }

  lemma KeptPrefixAll(raw: seq<Row>, n: int, minLength: int)
    requires 0 <= n <= |raw|
    ensures forall i :: 0 <= i < n ==> Kept(raw[..n], i, minLength) == Kept(raw, i, minLength)
  {
    forall i | 0 <= i < n
      ensures Kept(raw[..n], i, minLength) == Kept(raw, i, minLength)
    {
      KeptPrefix(raw, n, i, minLength);
    }
  }

  /** The positions of the kept rows of `raw`. */
  ghost function KeptIn(raw: seq<Row>, minLength: int): int -> bool
  {
    i => 0 <= i < |raw| && Kept(raw, i, minLength)
  }

  /** The single pass over the first `n` rows picks the cleaned rows at the kept positions. */
  lemma {:induction false} ReferenceIsPick(raw: seq<Row>, n: int, minLength: int)
    requires 0 <= n <= |raw|
    ensures Reference(raw[..n], minLength) == Pick(raw[..n], KeptIn(raw, minLength), CleanRow)
    decreases n
  {
    if n > 0 {
      ReferenceIsPick(raw, n - 1, minLength);
      var p := raw[..n];
      assert p[..n - 1] == raw[..n - 1] && p[n - 1] == raw[n - 1];
      KeptPrefix(raw, n, n - 1, minLength);
    }
  }

  /**
   * The single pass writes out the cleaned form of exactly the kept rows,
   * in input order: `idx[k]` is the input position of output row `k`.
   */
  lemma ReferenceRows(raw: seq<Row>, minLength: int) returns (idx: seq<int>)
    ensures |idx| == |Reference(raw, minLength)|
    ensures forall k :: 0 <= k < |idx| ==>
      0 <= idx[k] < |raw| && Reference(raw, minLength)[k] == CleanRow(raw[idx[k]])
    ensures forall k, l :: 0 <= k < l < |idx| ==> idx[k] < idx[l]
    ensures forall i :: 0 <= i < |raw| ==> (i in idx <==> Kept(raw, i, minLength))
  {
    ReferenceIsPick(raw, |raw|, minLength);
    assert raw[..|raw|] == raw;
    idx := PickPositions(raw, KeptIn(raw, minLength), CleanRow);
  }

  /**
   * The rows written out are the cleaned forms of exactly the kept input
   * rows, in input order: `idx[k]` is the input position of output row `k`.
   */
  lemma OutputRows(raw: seq<Row>, minLength: int) returns (idx: seq<int>)
    ensures |idx| == |Cleaned(raw, minLength)| <= |raw|
    ensures forall k :: 0 <= k < |idx| ==>
      0 <= idx[k] < |raw| && Cleaned(raw, minLength)[k] == CleanRow(raw[idx[k]])
    ensures forall k, l :: 0 <= k < l < |idx| ==> idx[k] < idx[l]
    ensures forall i :: 0 <= i < |raw| ==> (i in idx <==> Kept(raw, i, minLength))
  {
    CleanedIsReference(raw, minLength);
    idx := ReferenceRows(raw, minLength);
  }

  /**
   * Every row written out has all four cells present, in whitespace normal
   * form and free of `&lt;`, `&gt;` and `&#39;`; both answers are at least
   * `minLength` long; and its generated answer does not contain the error
   * marker in any letter case.
   */
  lemma OutputCells(raw: seq<Row>, minLength: int, k: int, c: Column)
    requires 0 <= k < |Cleaned(raw, minLength)|
    ensures var row := Cleaned(raw, minLength)[k];
      Cell(row, c).Some? && WhitespaceNormal(Cell(row, c).value) &&
      !Contains(Cell(row, c).value, "&lt;") && !Contains(Cell(row, c).value, "&gt;") &&
      !Contains(Cell(row, c).value, "&#39;")
    ensures LongEnough(Cleaned(raw, minLength)[k], minLength)
    ensures !ContainsIgnoreCase(Cleaned(raw, minLength)[k].gptAnswer.value, ErrorMarker)
  {
    var idx := OutputRows(raw, minLength);
    var i := idx[k];
    assert i in idx;
    CleanRowCells(raw[i], c);
    CleanRowKeepsMarkerAbsent(raw[i]);
  }

  /** The question ids written out are distinct. */
  lemma OutputIdsDistinct(raw: seq<Row>, minLength: int)
    ensures var out := Cleaned(raw, minLength);
      forall k, l :: 0 <= k < l < |out| ==> out[k].questionId != out[l].questionId
  {
    var d := WithoutDuplicates(raw);
    DedupDistinct(TextCleaned(raw));
    var idx := FilterSelects(d, KeepLong(minLength));
  }

  /**
   * Duplicates are dropped before short answers: a valid row is never
   * written out when an earlier valid row has the same question id, however
   * short that earlier row's answers are.
   */
  lemma EarlierDuplicateWins(raw: seq<Row>, minLength: int, j: int, i: int)
    requires 0 <= j < i < |raw|
    requires ValidRow(raw[j]) && raw[j].questionId == raw[i].questionId
    ensures !Kept(raw, i, minLength)
  {
    ValidIdsMeans(raw[..i], raw[i].questionId);
    assert raw[..i][j] == raw[j];
  }

  /** A one-row input: the row is written out, cleaned, exactly when it is valid and long enough. */
  lemma SingleRow(row: Row, minLength: int)
    ensures Cleaned([row], minLength) ==
      if ValidRow(row) && LongEnough(CleanRow(row), minLength) then [CleanRow(row)] else []
  {
    CleanedIsReference([row], minLength);
    assert [row][..0] == [];
  }

  /** When no input row is kept, nothing is written out. */
  lemma {:induction false} NothingKept(raw: seq<Row>, minLength: int)
    requires forall i :: 0 <= i < |raw| ==> !Kept(raw, i, minLength)
    ensures Cleaned(raw, minLength) == []
    decreases |raw|
  {
    if raw != [] {
      var n := |raw| - 1;
      KeptPrefixAll(raw, n, minLength);
      NothingKept(raw[..n], minLength);
      CleanedSnoc(raw, minLength);
    }
  }
}
