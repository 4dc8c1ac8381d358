/**
 * The cleaning script's data-cleaning steps, run in order on the rows read
 * from the CSV file: drop incomplete rows, drop rows whose generated answer
 * reports an error, clean the four text columns, drop repeated question ids,
 * drop rows with a short answer, and renumber the rows.
 */
module Pipeline {
  import opened Wrappers
  import opened Sequences
  import opened Dataset

  /** The script's fixed minimum answer length, in characters. */
  const MinLength: int := 50

  /** The number of rows each reporting step says it removed. */
  datatype Report = Report(missing: nat, errors: nat, duplicates: nat)

  // The data frame after each step, as a function of the rows read.

  function WithoutMissing(raw: seq<Row>): seq<Row>
  {
    Filter(raw, Complete)
  }

  function WithoutErrors(raw: seq<Row>): seq<Row>
  {
    Filter(WithoutMissing(raw), NoErrorMarker)
  }

  function CleanAll(s: seq<Row>): (r: seq<Row>)
    ensures |r| == |s| && forall i :: 0 <= i < |s| ==> r[i] == CleanRow(s[i])
  {
    seq(|s|, i requires 0 <= i < |s| => CleanRow(s[i]))
  }

  function TextCleaned(raw: seq<Row>): seq<Row>
  {
    CleanAll(WithoutErrors(raw))
  }

  function WithoutDuplicates(raw: seq<Row>): seq<Row>
  {
    Dedup(TextCleaned(raw))
  }

  /** The rows the script writes out (a fresh 0-based index is just their positions). */
  function Cleaned(raw: seq<Row>, minLength: int): seq<Row>
  {
    Filter(WithoutDuplicates(raw), KeepLong(minLength))
  }

  /** `df[mask]`: the rows for which the mask holds, in order. */
  method SelectRows<T>(df: seq<T>, mask: T -> bool) returns (r: seq<T>)
    ensures r == Filter(df, mask)
  {
    r := [];
    var i := 0;
    while i < |df|
      invariant 0 <= i <= |df|
      invariant r == Filter(df[..i], mask)
    {
      PrefixStep(df, i);
      if mask(df[i]) {
        r := r + [df[i]];
      }
      i := i + 1;
    }
    assert df[..|df|] == df;
  }

  /** `mask.sum()`: the number of rows for which the mask holds. */
  method CountRows<T>(df: seq<T>, mask: T -> bool) returns (n: nat)
    ensures n == Count(df, mask)
  {
    n := 0;
    var i := 0;
    while i < |df|
      invariant 0 <= i <= |df|
      invariant n == Count(df[..i], mask)
    {
      PrefixStep(df, i);
      if mask(df[i]) {
        n := n + 1;
      }
      i := i + 1;
    }
    assert df[..|df|] == df;
  }

  /** `df[col] = df[col].apply(clean_text)`. */
  method ApplyClean(df: seq<Row>, col: Column) returns (r: seq<Row>)
    ensures |r| == |df|
    ensures forall i :: 0 <= i < |df| ==> r[i] == CleanCell(df[i], col)
  {
    r := df;
    var i := 0;
    while i < |df|
      invariant 0 <= i <= |df| && |r| == |df|
      invariant forall k :: 0 <= k < i ==> r[k] == CleanCell(df[k], col)
      invariant forall k :: i <= k < |df| ==> r[k] == df[k]
    {
      r := r[i := CleanCell(r[i], col)];
      i := i + 1;
    }
  }

  /** `df.duplicated(subset=['question_id']).sum()`, keeping the ids seen so far. */
  method CountDuplicates(df: seq<Row>) returns (n: nat)
    ensures n == CountDuplicated(df)
  {
    n := 0;
    var seen: set<Option<int>> := {};
    var i := 0;
    while i < |df|
      invariant 0 <= i <= |df|
      invariant seen == IdsOf(df[..i])
      invariant n == CountDuplicated(df[..i])
    {
      PrefixIdsStep(df, i);
      if df[i].questionId in seen {
        n := n + 1;
      }
      seen := seen + {df[i].questionId};
      i := i + 1;
    }
    assert df[..|df|] == df;
  }

  /** `df.drop_duplicates(subset=['question_id'], keep='first')`. */
  method DropDuplicates(df: seq<Row>) returns (r: seq<Row>)
    ensures r == Dedup(df)
  {
    r := [];
    var seen: set<Option<int>> := {};
    var i := 0;
    while i < |df|
      invariant 0 <= i <= |df|
      invariant seen == IdsOf(df[..i])
      invariant r == Dedup(df[..i])
    {
      PrefixIdsStep(df, i);
      if df[i].questionId !in seen {
        r := r + [df[i]];
      }
      seen := seen + {df[i].questionId};
      i := i + 1;
    }
    assert df[..|df|] == df;
  }

  /** Step 2: count the rows whose generated answer reports an error, and drop them if there are any. */
  method RemoveErrors(df: seq<Row>) returns (r: seq<Row>, errorCount: nat)
    ensures r == Filter(df, NoErrorMarker)
    ensures errorCount == |df| - |r|
  {
    errorCount := CountRows(df, HasErrorMarker);
    FilterComplementLength(df, NoErrorMarker, HasErrorMarker);
    if errorCount > 0 {
      r := SelectRows(df, NoErrorMarker);
    } else {
      CountZero(df, HasErrorMarker);
      FilterKeepsAll(df, NoErrorMarker);
      r := df;
    }
  }

  /** Step 3: clean the title, the body and both answers, one column after the other. */
  method CleanColumns(df: seq<Row>) returns (r: seq<Row>)
    ensures r == CleanAll(df)
  {
    r := ApplyClean(df, QuestionTitle);
    r := ApplyClean(r, QuestionBody);
    r := ApplyClean(r, HumanAnswer);
    r := ApplyClean(r, GptAnswer);
  }

  /** Step 4: count the rows with a repeated question id, and drop them if there are any. */
  method RemoveDuplicates(df: seq<Row>) returns (r: seq<Row>, dupCount: nat)
    ensures r == Dedup(df)
    ensures dupCount == |df| - |r|
  {
    dupCount := CountDuplicates(df);
    DedupLength(df);
    if dupCount > 0 {
      r := DropDuplicates(df);
    } else {
      DedupKeepsAll(df);
      r := df;
    }
  }

  /**
   * The cleaning steps of the script on the rows read from the CSV file:
   * the rows it writes out, and the counts it reports for steps 1, 2 and 4,
   * each being the number of rows that step removed.
   */
  method CleanDataset(raw: seq<Row>) returns (df: seq<Row>, report: Report)
    ensures df == Cleaned(raw, MinLength)
    ensures report.missing == |raw| - |WithoutMissing(raw)|
    ensures report.errors == |WithoutMissing(raw)| - |WithoutErrors(raw)|
    ensures report.duplicates == |TextCleaned(raw)| - |WithoutDuplicates(raw)|
  {
    // 1. Remove rows with a missing text cell.
    var initialCount := |raw|;
    df := SelectRows(raw, Complete);
    var missing := initialCount - |df|;
    // 2. Remove rows whose generated answer reports an error.
    var errorCount;
    df, errorCount := RemoveErrors(df);
    // 3. Clean the text columns.
    df := CleanColumns(df);
    // 4. Remove repeated question ids, keeping the first row of each.
    var dupCount;
    df, dupCount := RemoveDuplicates(df);
    // 5. Remove rows with an empty or too short answer.
    df := SelectRows(df, KeepLong(MinLength));
    // 6. `reset_index(drop=True)` renumbers the rows; a sequence is already numbered by position.
    report := Report(missing, errorCount, dupCount);
  }
}
