/**
 * The rows of the question-and-answer dataset and the per-row tests the
 * cleaning script applies to them: completeness, the error marker in the
 * generated answer, the answer lengths, and duplicate question ids.
 */
module Dataset {
  import opened Wrappers
  import opened Strings
  import opened Whitespace
  import opened CleanText
  import opened Sequences

  /** The four text columns of the dataset. */
  datatype Column = QuestionTitle | QuestionBody | HumanAnswer | GptAnswer

  /**
   * One row: the question id and the four text cells. A `None` cell is an
   * empty CSV field, which pandas reads as NaN; two NaN ids count as equal
   * when duplicates are detected, as they do for `None` here.
   */
  datatype Row = Row(
    questionId: Option<int>,
    questionTitle: Option<string>,
    questionBody: Option<string>,
    humanAnswer: Option<string>,
    gptAnswer: Option<string>)

  function Cell(row: Row, col: Column): Option<string>
  {
    match col
    case QuestionTitle => row.questionTitle
    case QuestionBody => row.questionBody
    case HumanAnswer => row.humanAnswer
    case GptAnswer => row.gptAnswer
  }

  /** `df[col].apply(clean_text)` on one row: that cell is cleaned and nothing else changes. */
  function CleanCell(row: Row, col: Column): (r: Row)
    ensures Cell(r, col) == Some(Clean(Cell(row, col)))
    ensures forall c :: c != col ==> Cell(r, c) == Cell(row, c)
    ensures r.questionId == row.questionId
  {
    match col
    case QuestionTitle => row.(questionTitle := Some(Clean(row.questionTitle)))
    case QuestionBody => row.(questionBody := Some(Clean(row.questionBody)))
    case HumanAnswer => row.(humanAnswer := Some(Clean(row.humanAnswer)))
    case GptAnswer => row.(gptAnswer := Some(Clean(row.gptAnswer)))
  }

  /** The four column passes applied to one row, in the script's order. */
  function CleanRow(row: Row): (r: Row)
    ensures forall c :: Cell(r, c) == Some(Clean(Cell(row, c)))
    ensures r.questionId == row.questionId
  {
    CleanCell(CleanCell(CleanCell(CleanCell(row, QuestionTitle), QuestionBody), HumanAnswer), GptAnswer)
  }

  /**
   * Every cell of a cleaned row is present and in whitespace normal form, and
   * holds no `&lt;`, `&gt;` or `&#39;`.
   */
  lemma CleanRowCells(row: Row, c: Column)
    ensures Cell(CleanRow(row), c).Some?
    ensures WhitespaceNormal(Cell(CleanRow(row), c).value)
    ensures var v := Cell(CleanRow(row), c).value;
      !Contains(v, "&lt;") && !Contains(v, "&gt;") && !Contains(v, "&#39;")
  {
    CleanNormal(Cell(row, c));
    if Cell(row, c).Some? {
      CleanRemovesEntities(Cell(row, c).value);
    }
  }

  /** Cleaning a row never introduces the error marker into its generated answer. */
  lemma CleanRowKeepsMarkerAbsent(row: Row)
    ensures NoErrorMarker(row) ==> NoErrorMarker(CleanRow(row))
  {
    if row.gptAnswer.Some? {
      CleanKeepsMarkerAbsent(row.gptAnswer.value);
    }
  }

  /** `dropna(subset=[...])` keeps a row when none of the four text cells is missing. */
  predicate Complete(row: Row)
  {
    forall c :: Cell(row, c).Some?
  }

  /** `str.contains('ERROR', case=False, na=False)` on the generated answer. */
  predicate HasErrorMarker(row: Row)
  {
    row.gptAnswer.Some? && ContainsIgnoreCase(row.gptAnswer.value, ErrorMarker)
  }

  predicate NoErrorMarker(row: Row)
  {
    !HasErrorMarker(row)
  }

  /**
   * Both answers have at least `minLength` characters. A missing answer has
   * length NaN, and a comparison with NaN is false.
   */
  predicate LongEnough(row: Row, minLength: int)
  {
    row.humanAnswer.Some? && |row.humanAnswer.value| >= minLength &&
    row.gptAnswer.Some? && |row.gptAnswer.value| >= minLength
  }

  /** The boolean mask of the length filter. */
  function KeepLong(minLength: int): Row -> bool
  {
    row => LongEnough(row, minLength)
  }

  /** The question ids that occur in `s`. */
  function IdsOf(s: seq<Row>): (ids: set<Option<int>>)
    ensures forall j :: 0 <= j < |s| ==> s[j].questionId in ids
    decreases |s|
  {
    if s == [] then {}
    else
      var ids := IdsOf(s[..|s| - 1]);
      assert forall j :: 0 <= j < |s| - 1 ==> s[..|s| - 1][j] == s[j];
      ids + {s[|s| - 1].questionId}
  }

  /** An id is in `IdsOf(s)` exactly when some row of `s` has it. */
  lemma {:induction false} IdsOfMeans(s: seq<Row>, x: Option<int>)
    ensures x in IdsOf(s) <==> exists j :: 0 <= j < |s| && s[j].questionId == x
    decreases |s|
  {
    if s != [] {
      var n := |s| - 1;
      IdsOfMeans(s[..n], x);
      if x in IdsOf(s[..n]) {
        var j :| 0 <= j < n && s[..n][j].questionId == x;
        assert s[j] == s[..n][j];
      }
    }
  }

  /** `duplicated(subset=['question_id'])` with `keep='first'`: an earlier row has the same id. */
  predicate Duplicated(s: seq<Row>, i: int)
    requires 0 <= i < |s|
  {
    s[i].questionId in IdsOf(s[..i])
  }

  lemma DuplicatedMeans(s: seq<Row>, i: int)
    requires 0 <= i < |s|
    ensures Duplicated(s, i) <==> exists j :: 0 <= j < i && s[j].questionId == s[i].questionId
  {
    IdsOfMeans(s[..i], s[i].questionId);
    assert forall j :: 0 <= j < i ==> s[..i][j] == s[j];
  }

  /** `drop_duplicates(subset=['question_id'], keep='first')`. */
  function Dedup(s: seq<Row>): (r: seq<Row>)
    ensures |r| <= |s|
    decreases |s|
  {
    if s == [] then []
    else Dedup(s[..|s| - 1]) + (if Duplicated(s, |s| - 1) then [] else [s[|s| - 1]])
  }

  /** `duplicated(...).sum()`: the number of rows whose id occurred before. */
  function CountDuplicated(s: seq<Row>): (n: nat)
    ensures n <= |s|
    decreases |s|
  {
    if s == [] then 0
    else CountDuplicated(s[..|s| - 1]) + (if Duplicated(s, |s| - 1) then 1 else 0)
  }

  /** Dropping duplicates is an order-preserving selection of exactly the first row of each id. */
  lemma {:induction false} DedupSelects(s: seq<Row>) returns (idx: seq<int>)
    ensures Selects(Dedup(s), s, idx)
    ensures forall i :: 0 <= i < |s| ==> (i in idx <==> !Duplicated(s, i))
    decreases |s|
  {
    if s == [] {
      idx := [];
    } else {
      var n := |s| - 1;
      var init := s[..n];
      var prev := DedupSelects(init);
      SelectsExtend(Dedup(init), s, prev);
      PrefixDuplicated(s);
      assert n !in prev;
      var dup := Duplicated(s, n);
      assert Dedup(s) == Dedup(init) + (if dup then [] else [s[n]]);
      idx := if dup then prev else prev + [n];
    }
  }

  /** Whether an earlier row shares the id does not depend on the rows after it. */
  lemma PrefixDuplicated(s: seq<Row>)
    requires s != []
    ensures forall i :: 0 <= i < |s| - 1 ==> (Duplicated(s[..|s| - 1], i) <==> Duplicated(s, i))
  {
    var init := s[..|s| - 1];
    assert forall i :: 0 <= i < |s| - 1 ==> init[i] == s[i] && init[..i] == s[..i];
  }

  /** The ids of a sequence with one more row. */
  lemma {:induction false} IdsOfSnoc(d: seq<Row>, x: Row)
    ensures IdsOf(d + [x]) == IdsOf(d) + {x.questionId}
  {
    assert (d + [x])[..|d|] == d;
  }

  /** What one more loop step over `s[i]` adds to the ids, the duplicate count and the deduplicated rows. */
  lemma PrefixIdsStep(s: seq<Row>, i: int)
    requires 0 <= i < |s|
    ensures IdsOf(s[..i + 1]) == IdsOf(s[..i]) + {s[i].questionId}
    ensures CountDuplicated(s[..i + 1]) ==
      CountDuplicated(s[..i]) + (if s[i].questionId in IdsOf(s[..i]) then 1 else 0)
    ensures Dedup(s[..i + 1]) == Dedup(s[..i]) + (if s[i].questionId in IdsOf(s[..i]) then [] else [s[i]])
  {
    var p := s[..i + 1];
    assert p[..i] == s[..i] && p[i] == s[i];
    assert Duplicated(p, i) == (s[i].questionId in IdsOf(s[..i]));
  }

  /** Dropping duplicates from a sequence with one more row. */
  lemma {:induction false} DedupSnoc(s: seq<Row>, x: Row)
    ensures Dedup(s + [x]) == Dedup(s) + (if x.questionId in IdsOf(s) then [] else [x])
  {
    assert (s + [x])[..|s|] == s;
  }

  /** Dropping duplicates keeps every id. */
  lemma {:induction false} DedupIds(s: seq<Row>)
    ensures IdsOf(Dedup(s)) == IdsOf(s)
    decreases |s|
  {
    if s != [] {
      var n := |s| - 1;
      var init := s[..n];
      DedupIds(init);
      var d := Dedup(init);
      assert IdsOf(s) == IdsOf(init) + {s[n].questionId};
      if Duplicated(s, n) {
        assert Dedup(s) == d;
        assert s[n].questionId in IdsOf(init);
      } else {
        assert Dedup(s) == d + [s[n]];
        IdsOfSnoc(d, s[n]);
      }
    }
  }

  /** Appending a row whose id is new keeps the ids distinct. */
  lemma {:induction false} DistinctSnoc(d: seq<Row>, x: Row)
    requires forall k, l :: 0 <= k < l < |d| ==> d[k].questionId != d[l].questionId
    requires x.questionId !in IdsOf(d)
    ensures forall k, l :: 0 <= k < l < |d + [x]| ==> (d + [x])[k].questionId != (d + [x])[l].questionId
  {
  }

  /** The ids that dropping duplicates keeps are distinct. */
  lemma {:induction false} DedupDistinct(s: seq<Row>)
    ensures forall k, l :: 0 <= k < l < |Dedup(s)| ==> Dedup(s)[k].questionId != Dedup(s)[l].questionId
    decreases |s|
  {
    if s != [] {
      var n := |s| - 1;
      var init := s[..n];
      DedupDistinct(init);
      if !Duplicated(s, n) {
        DedupIds(init);
        DistinctSnoc(Dedup(init), s[n]);
      }
    }
  }

  /** Dropping duplicates removes exactly the rows `duplicated` counts. */
  lemma {:induction false} DedupLength(s: seq<Row>)
    ensures |Dedup(s)| == |s| - CountDuplicated(s)
    decreases |s|
  {
    if s != [] {
      DedupLength(s[..|s| - 1]);
    }
  }

  /** With no duplicate counted, dropping duplicates changes nothing. */
  lemma {:induction false} DedupKeepsAll(s: seq<Row>)
    requires CountDuplicated(s) == 0
    ensures Dedup(s) == s
    decreases |s|
  {
    if s != [] {
      DedupKeepsAll(s[..|s| - 1]);
    }
  }
}
