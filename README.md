# Cleaning a question-and-answer dataset

The script `src/clean-data.py` reads a CSV of Stack Overflow questions. Each
question comes with a human answer and a GPT answer. The script cleans the
rows and writes them back out. This project models its two working parts and
proves what they guarantee.

- `clean_text` is a pure text normaliser. A missing cell becomes `""`. Five
  HTML entities are decoded by literal `str.replace` calls, in a fixed order
  (`&quot;`, `&amp;`, `&lt;`, `&gt;`, `&#39;`). Every run of whitespace then
  becomes a single space, and the ends are stripped. In the model these are
  functions: `Strings.ReplaceAll`, `Whitespace.Collapse`, `Whitespace.Strip`
  and `CleanText.Clean`, with lemmas about each.
- The data-cleaning steps rebind the data frame `df` once per step:
  1. drop rows that miss one of the four text cells;
  2. count the rows whose GPT answer contains "ERROR" in any letter case, and
     drop them if there are any;
  3. overwrite the four text columns with their cleaned values;
  4. count the rows whose question id occurred earlier, and drop them if there
     are any, keeping the first row of each id;
  5. drop rows with an answer shorter than 50 characters;
  6. renumber the rows.

  In the model, `Pipeline.CleanDataset` runs these steps as methods over a
  local `seq<Row>`. The loops are in `Pipeline.SelectRows`,
  `Pipeline.CountRows`, `Pipeline.ApplyClean`, `Pipeline.CountDuplicates`
  and `Pipeline.DropDuplicates`. Each is proved equal to a specification
  function: `Sequences.Filter`, `Sequences.Count`, `Dataset.CleanCell` on
  every row, `Dataset.CountDuplicated` and `Dataset.Dedup`. The step methods
  (`Pipeline.RemoveErrors`, `Pipeline.CleanColumns`,
  `Pipeline.RemoveDuplicates`) and `Pipeline.CleanDataset` call these loops
  and are proved equal to the composed functions. The composition of those
  functions, `Pipeline.Cleaned`, is proved equal to an independent one-pass
  definition, `PipelineProperties.Reference`. That definition keeps input
  row `i` exactly when:
  - the row is complete;
  - its GPT answer has no error marker;
  - no earlier such row has the same id;
  - both of its cleaned answers are long enough.

  The theorems about the output are stated against that definition.

Modelling choices:
- A missing cell (pandas NaN) is `None`. Question ids are `Option<int>`, and
  two NaN ids count as equal, as they do for `duplicated`.
- `min_length` is the constant `Pipeline.MinLength` (50). The specification
  functions take it as a parameter.
- `Whitespace.IsWhitespace` is the set of characters for which Python's
  `str.isspace` holds.
- The case-insensitive test lower-cases ASCII letters only.

The code does not promise two things that are easy to assume, and the model
follows the code:
- `clean_text` is not idempotent. `"&amp;quot;"` cleans to `"&quot;"`, which
  cleans again to `"\""` (`CleanTextExamples.NotIdempotent`).
- The title and body may be empty after cleaning. A blank title survives as
  `""` (`PipelineExamples.BlankTitleSurvives`).

Because `&amp;` is decoded before `&lt;`, the text `"&amp;lt;"` is decoded
twice and ends up as `"<"` (`CleanTextExamples.DoubleEscapedLt`).

## Model

| member | source | states |
|---|---|---|
| Strings.ReplaceAll | src/clean-data.py:15-17 | `str.replace` with a replacement no longer than the pattern never makes the text longer |
| Strings.ReplaceLeftmost | src/clean-data.py:15-17 | at the leftmost occurrence of the pattern, `str.replace` keeps the text before it unchanged, puts the replacement in its place and goes on after it; with `Strings.ReplaceAbsent` this fixes the result on every input |
| Strings.ReplaceAbsent | src/clean-data.py:15-17 | text with no occurrence of the pattern is left unchanged |
| Strings.ReplaceAround | src/clean-data.py:15-17 | a character that is not part of the pattern separates the text: the parts on either side are replaced independently |
| Strings.ReplaceRemovesAll | src/clean-data.py:16-17 | after replacing every `pat` with one character that is not in `pat`, no occurrence of `pat` is left |
| Strings.ReplaceKeepsAbsent | src/clean-data.py:15-17 | replacing a pattern by a character that cannot be part of `w` never creates an occurrence of `w`, exactly or case-insensitively |
| Strings.ReplaceAbsentFirst | src/clean-data.py:15-17 | a replacement whose pattern starts with a character absent from the text leaves the text unchanged |
| Strings.ContainsIgnoreCaseMeans | src/clean-data.py:64 | the case-insensitive search finds the pattern exactly when the lower-cased text plainly contains the lower-cased pattern, in both directions |
| Whitespace.StripTrims | src/clean-data.py:22 | `strip()` returns the slice of the input between a whitespace-only prefix and a whitespace-only suffix, with no whitespace left at either end |
| Whitespace.StripNormal | src/clean-data.py:22 | `strip()` changes nothing on text in whitespace normal form |
| Whitespace.SplitFromWords | src/clean-data.py:20 | every piece `split()` produces is non-empty and has no whitespace |
| Whitespace.SplitRuns | src/clean-data.py:20 | `split()` returns exactly the maximal runs of non-whitespace, in order: each piece is a slice of the input with whitespace or an end on both sides, the pieces do not overlap, and every non-whitespace character lies in one of them |
| Whitespace.JoinSpacesNormal | src/clean-data.py:20 | joining words with single spaces gives whitespace normal form, and it is empty exactly when there are no words |
| Whitespace.CollapseNormal | src/clean-data.py:20 | `' '.join(text.split())` is in whitespace normal form and never longer than its input |
| Whitespace.CollapseFixesNormal | src/clean-data.py:20 | collapsing whitespace changes nothing on text already in normal form |
| Whitespace.CollapseIdempotent | src/clean-data.py:20 | collapsing whitespace twice is the same as collapsing it once |
| Whitespace.SplitJoin | src/clean-data.py:20 | splitting words joined by single spaces gives exactly those words back |
| Whitespace.CollapseKeepsWords | src/clean-data.py:20 | collapsing keeps the words: the collapsed text splits into exactly the words of the input |
| Whitespace.CollapseOccursBack | src/clean-data.py:20 | if a string without spaces occurs in the collapsed text, it already occurred in the input |
| Whitespace.NoWhitespaceFixed | src/clean-data.py:20-22 | text with no whitespace is in normal form and unchanged by collapsing and stripping |
| CleanText.DecodeEntities | src/clean-data.py:15-17 | decoding the five entities in the code's order never lengthens the text |
| CleanText.DecodeAround | src/clean-data.py:15-17 | decoding the entities works independently on the two sides of a space |
| CleanText.Clean | src/clean-data.py:8-22 | a missing value cleans to `""`; a present value never gets longer |
| CleanText.CleanNormal | src/clean-data.py:20-22 | the result is in whitespace normal form, so the final `strip()` is a no-op and the result is the collapsed decoding |
| CleanText.CleanWhitespaceFacts | src/clean-data.py:20-22 | no whitespace at either end, only `' '` as whitespace, and never two whitespace characters in a row |
| CleanText.CleanKeepsWords | src/clean-data.py:15-22 | the cleaned text splits into exactly the words of the decoded text, so cleaning changes only whitespace after decoding |
| CleanText.CleanRemovesEntities | src/clean-data.py:15-22 | no `&lt;`, `&gt;` or `&#39;` is left after cleaning |
| CleanText.CleanKeepsMarkerAbsent | src/clean-data.py:15-22 | cleaning never creates "error" in any ASCII letter case |
| CleanText.CleanFixesPlain | src/clean-data.py:8-22 | text without `&` that is already in whitespace normal form comes out unchanged |
| CleanTextExamples.DoubleEscapedQuote | src/clean-data.py:15-17 | `"&amp;quot;"` cleans to `"&quot;"` |
| CleanTextExamples.EscapedQuote | src/clean-data.py:15-17 | `"&quot;"` cleans to `"\""` |
| CleanTextExamples.NotIdempotent | src/clean-data.py:8-22 | cleaning the result of cleaning `"&amp;quot;"` changes it again |
| CleanTextExamples.DoubleEscapedAmp | src/clean-data.py:15-17 | `"&amp;amp;"` cleans to `"&amp;"`, so `&amp;` can survive cleaning |
| CleanTextExamples.DoubleEscapedLt | src/clean-data.py:15-17 | `"&amp;lt;"` cleans all the way to `"<"` |
| CleanTextExamples.MixedWhitespace | src/clean-data.py:20-22 | `"a   b\n\tc"` cleans to `"a b c"` |
| CleanTextExamples.Entities | src/clean-data.py:15-22 | `a &amp; b &lt;c&gt; &quot;d&quot; &#39;e&#39;` cleans to `a & b <c> "d" 'e'` |
| CleanTextExamples.BlankIsEmpty | src/clean-data.py:20-22 | a whitespace-only cell cleans to `""`, like a missing one |
| Sequences.Filter | src/clean-data.py:84-87 | a boolean-mask selection keeps only elements that satisfy the mask and come from the input, and is never longer |
| Sequences.FilterSelects | src/clean-data.py:84-87 | the selection keeps the input order and keeps exactly the positions whose element satisfies the mask |
| Sequences.PickPositions | src/clean-data.py:84-87 | picking by position takes exactly the positions that pass the test, in increasing order, each mapped by the given function |
| Sequences.FilterLength | src/clean-data.py:84-87 | the selection keeps as many rows as the mask counts |
| Sequences.FilterComplementLength | src/clean-data.py:64-66 | dropping the rows that satisfy a mask removes exactly as many rows as the mask's sum counts |
| Sequences.FilterKeepsAll | src/clean-data.py:65-66 | a mask that holds on every row keeps the frame as it is |
| Sequences.CountZero | src/clean-data.py:64-65 | a zero count means no row satisfies the mask, and the converse |
| Dataset.CleanCell | src/clean-data.py:71-74 | applying `clean_text` to one column sets that cell to the cleaned value and leaves every other cell and the id alone |
| Dataset.CleanRow | src/clean-data.py:71-74 | after the four column passes, every text cell is the cleaned raw value and the id is unchanged |
| Dataset.CleanRowCells | src/clean-data.py:71-74 | every cell of a cleaned row is present, in whitespace normal form and free of `&lt;`, `&gt;`, `&#39;` |
| Dataset.CleanRowKeepsMarkerAbsent | src/clean-data.py:64-74 | a row without the error marker has none after cleaning |
| Dataset.IdsOfMeans | src/clean-data.py:77 | an id is in the set of seen ids exactly when some row has it |
| Dataset.DuplicatedMeans | src/clean-data.py:77 | a row is a duplicate exactly when an earlier row has the same question id |
| Dataset.DedupSelects | src/clean-data.py:79 | `drop_duplicates(keep='first')` keeps the input order and keeps exactly the rows that are not duplicates |
| Dataset.DedupIds | src/clean-data.py:79 | dropping duplicates keeps every id of the input |
| Dataset.DedupDistinct | src/clean-data.py:79 | after dropping duplicates, no two rows share a question id |
| Dataset.DedupLength | src/clean-data.py:77-79 | dropping duplicates removes exactly as many rows as `duplicated().sum()` counts |
| Dataset.DedupKeepsAll | src/clean-data.py:78-79 | with no duplicate counted, dropping duplicates changes nothing |
| Pipeline.SelectRows | src/clean-data.py:84-87 | the loop computes the boolean-mask selection `df[mask]` |
| Pipeline.CountRows | src/clean-data.py:64 | the loop computes the mask's sum |
| Pipeline.ApplyClean | src/clean-data.py:71 | the loop replaces one column of every row by its cleaned value and keeps the row count |
| Pipeline.CountDuplicates | src/clean-data.py:77 | the loop over the ids seen so far counts the rows that `duplicated` marks |
| Pipeline.DropDuplicates | src/clean-data.py:79 | the loop over the ids seen so far computes `drop_duplicates(keep='first')` |
| Pipeline.RemoveErrors | src/clean-data.py:64-67 | step 2 drops exactly the rows with the error marker, and the count it reports is the number of rows it removed |
| Pipeline.CleanColumns | src/clean-data.py:71-74 | the four column passes clean every row |
| Pipeline.RemoveDuplicates | src/clean-data.py:77-80 | step 4 drops duplicates, and the count it reports is the number of rows it removed |
| Pipeline.CleanDataset | src/clean-data.py:58-91 | the steps produce the specified output; the reported missing, error and duplicate counts are the rows removed by steps 1, 2 and 4 |
| PipelineProperties.ValidIdsMeans | src/clean-data.py:60-66 | an id is among the valid rows' ids exactly when some complete row without the error marker has it |
| PipelineProperties.CleanedIsReference | src/clean-data.py:58-91 | the five steps output exactly what the independent one-pass definition outputs |
| PipelineProperties.ReferenceRows | src/clean-data.py:58-91 | the one-pass definition outputs the cleaned form of exactly the kept input rows, in input order |
| PipelineProperties.OutputRows | src/clean-data.py:58-91 | output row `k` is the cleaned form of input row `idx[k]`; `idx` increases; a row is in `idx` exactly when it is kept; the output is never longer than the input |
| PipelineProperties.OutputCells | src/clean-data.py:60-87 | every output cell is present, in whitespace normal form and free of three entities; both answers reach the minimum length; the GPT answer has no error marker |
| PipelineProperties.OutputIdsDistinct | src/clean-data.py:77-87 | no two output rows share a question id |
| PipelineProperties.EarlierDuplicateWins | src/clean-data.py:77-87 | a row is dropped when an earlier row that passed steps 1-2 has the same id, however short that earlier row is |
| PipelineProperties.SingleRow | src/clean-data.py:58-91 | a one-row input is written out, cleaned, exactly when it is valid and its cleaned answers are long enough |
| PipelineProperties.NothingKept | src/clean-data.py:58-91 | if no input row is kept, the output is empty |
| PipelineExamples.BlankTitleSurvives | src/clean-data.py:71-87 | a row with a blank title and body and 50-character answers is written out with an empty title and body |
| PipelineExamples.ShortDuplicateHidesLongOne | src/clean-data.py:77-87 | a short first row and a long second row with the same id produce no output, because duplicates are dropped before the length filter |

## Left out

- Reading the CSV file, along with the retry with the Python engine (src/clean-data.py:26-50). This is file I/O and exception handling, so the model starts from the rows already read.
- Writing the cleaned CSV (src/clean-data.py:98). This is file I/O.
- The mean-length statistics (src/clean-data.py:107-116). They are floating-point values that are only printed.
- All console output, including the 60-character title previews (src/clean-data.py:118-120). The counts the script prints are modelled as `Pipeline.Report`.
- The `str(text)` coercion (src/clean-data.py:13). A cell is either a string or missing.
- Pass-through columns other than the id and the four text columns. They are not shown in `Dataset.Row`; pandas carries them along unchanged.
- Dataset.HasErrorMarker: lower-cases ASCII letters only. pandas matches with Python's Unicode-aware case-insensitive regex. The pattern "ERROR" has no regex metacharacters.
- Strings.ReplaceAll: requires a non-empty pattern. Python's `replace` with an empty pattern inserts the replacement between characters, but the script never uses an empty pattern.
- The crash on a column with no values at all. When the CSV's `gpt_answer` column is empty in every row, pandas reads it as a float column. The `.str` accessor at src/clean-data.py:64 then raises, and the script writes nothing. An all-empty `human_answer` column fails the same way at src/clean-data.py:85. The model assumes each answer column holds at least one string. For such input it instead returns no rows, with every row counted as missing.
- Row numbering after `reset_index(drop=True)` (src/clean-data.py:91) is the position in the sequence, so there is no separate index to model.
