# JsonToCsv in Dafny

JsonToCsv turns a directory of JSON documents into CSV text. The operator gives:

- a header, a comma-separated list of field names;
- a delimiter, a comma by default;
- an optional second delimiter that replaces the first one inside values;
- a counts-only switch;
- a batch size;
- a switch for a `FileName` header column.

The program builds a case-insensitive index from header names to column positions. It then handles each file in turn:

- It parses the file into a BSON document.
- It walks the document recursively and stores every rendered value at each position its element name maps to.
- It appends one line to a string buffer. The line is the file name, then one field per header position.

Before any file is read, the buffer holds the header line. Each time the file counter reaches a multiple of the batch size, the buffer is written out as batch `j_results_<q>.txt` and cleared. Whatever remains at the end goes to `j_results_final.txt`.

The model has seven modules:

- `Wrappers`: `Option` and `Result`.
- `Text`: the .NET string operations the program relies on, as functions on `seq<char>`. These are `Split`, `Join` and left-to-right non-overlapping `Replace`. It also has the ASCII case fold standing in for `StringComparer.OrdinalIgnoreCase`, and `NatToString` for `int.ToString()`.
- `Bson`: the parsed tree. A node is `Scalar`, `Document` (named elements in order) or `Array`.
- `ColumnIndex`: the header-to-positions dictionary. It is a specification `IndexOf` plus the loop `BuildIndex` that builds it.
- `Flattener`: the class `RowBuffer` stands for the `SortedDictionary`. The method `Recurse` updates it in place and is proved equal to the functional walk `Flatten`/`Visit`.
- `RowAssembly`: the class `TextBuffer` stands for the `StringBuilder`. It supports `Append`, `AppendLine`, cutting its `Length`, and `Clear`. `ProcessFile` is the per-file block, proved to append `FileLine`.
- `Batching`: the configuration checks (`BatchSize`, `Execute`) and the main loop `Convert`. `Convert` returns the emitted (name, contents) artifacts and is proved equal to the batch machine `Accumulate`/`Batches`. The lemmas say what each batch holds.

Behaviour the model keeps as the code has it, where the prose description of the tool says otherwise:

- **Counts-only.** The switch replaces a value by its element count only when the value is a document. The code's test casts to `IEnumerable<BsonElement>`, which only a document satisfies. An array keeps its default rendering, although the tool's description speaks of collections (`RenderValue`, `ArrayContentsNotVisited`).
- **The file name always starts each row.** Only the header line is conditional. Without the `FileName` option, the header has one column fewer than the rows (`HeaderColumns`, `RowFields`).
- **A row has as many delimiters as header columns.** When the delimiter is one character and neither the file name nor any value contains it, the count is `n`, not `n - 1`, because the file name field comes first (`RowDelimiterCount`).
- **The header line appears once.** It is at the start of the first emitted batch, not at the start of every batch (`NumberedBatches`, `LayoutEntry`).
- **Unparsable files count towards the batch boundaries but add no line** (`UnparsableAddsNoLine`). A boundary reached while the buffer is empty still writes an empty numbered batch. The final batch is written only when the buffer is not empty (`FinalBatch`).
- **The header is always split on a comma**, whatever delimiter is chosen (`Batching.Convert`).

## Model

| member | source | states |
|---|---|---|
| Text.Split | JsonToCsv/Program.cs:88 | `header.Split(',')` gives one more piece than there are separators, and no piece contains the separator |
| Text.JoinSplit | JsonToCsv/Program.cs:88 | joining the pieces of a split with the separator gives back the input |
| Text.SplitJoin | JsonToCsv/Program.cs:108 | splitting a join of separator-free parts gives back the parts |
| Text.SplitPrefix | JsonToCsv/Program.cs:118 | a separator-free prefix followed by the separator splits off as the first piece |
| Text.Join | JsonToCsv/Program.cs:108 | `string.Join`: the parts with the delimiter between neighbours; its properties are stated by `JoinSnoc`, `JoinCount`, `JoinSplit` and `SplitJoin` |
| Text.JoinSnoc | JsonToCsv/Program.cs:108 | joining one more part appends the delimiter and that part |
| Text.JoinCount | JsonToCsv/Program.cs:108 | a join of separator-free parts has one separator fewer than parts |
| Text.Replace | JsonToCsv/Program.cs:206 | `string.Replace`: left to right, each occurrence not overlapping an earlier replaced one becomes the replacement; its properties are stated by `ReplaceCharIsSplitJoin`, `ReplaceAbsent`, `ReplaceSelf`, `ReplaceRemovesChar` and `ReplaceRoundTrip` |
| Text.ReplaceCharIsSplitJoin | JsonToCsv/Program.cs:206 | replacing a one-character pattern is splitting on it and joining the pieces with the replacement |
| Text.ReplaceAbsent | JsonToCsv/Program.cs:206 | `Replace` leaves a text without the pattern unchanged |
| Text.ReplaceSelf | JsonToCsv/Program.cs:206 | replacing a pattern by itself changes nothing |
| Text.ReplaceRemovesChar | JsonToCsv/Program.cs:206 | replacing a one-character pattern by a text without it leaves no occurrence of it |
| Text.ReplaceRoundTrip | JsonToCsv/Program.cs:206 | swapping a character for one the text lacks, then back, returns the text |
| Text.Fold | JsonToCsv/Program.cs:89 | the case fold keeps the length and leaves no lower-case ASCII letter |
| Text.FoldEquates | JsonToCsv/Program.cs:89 | two names fold to the same key exactly when they have the same length and agree at each position up to ASCII letter case |
| Text.FoldIdempotent | JsonToCsv/Program.cs:89 | a folded name is its own canonical spelling |
| Text.NatToString | JsonToCsv/Program.cs:200 | `int.ToString()` of a count: at least one decimal digit, no leading zero unless the count is 0 |
| Text.NatToStringValue | JsonToCsv/Program.cs:200 | reading the digits back gives the count |
| ColumnIndex.PositionsMembership | JsonToCsv/Program.cs:90-99 | a position is listed under a key exactly when the header name there folds to the key |
| ColumnIndex.PositionsAscending | JsonToCsv/Program.cs:90-99 | the positions under a key are strictly ascending and below the header length |
| ColumnIndex.IndexComplete | JsonToCsv/Program.cs:88-100 | the index has an entry for every folded header name and no other; every position 0..n-1 is in the entry of its own name |
| ColumnIndex.IndexSound | JsonToCsv/Program.cs:88-100 | an entry lists only positions in range whose header name equals its key ignoring case |
| ColumnIndex.IndexAscending | JsonToCsv/Program.cs:88-100 | every entry's position list is strictly ascending |
| ColumnIndex.IndexDisjoint | JsonToCsv/Program.cs:88-100 | no position is listed under two keys, so each position sits in exactly one entry |
| ColumnIndex.IndexOfAppend | JsonToCsv/Program.cs:92-99 | one more header name either appends its position to the existing entry or starts a new entry |
| ColumnIndex.BuildIndex | JsonToCsv/Program.cs:88-100 | the dictionary loop builds exactly `IndexOf(headerInOrder)` |
| Flattener.RowBuffer.constructor | JsonToCsv/Program.cs:117 | a new position buffer is empty |
| Flattener.RenderValue | JsonToCsv/Program.cs:194-202 | in counts-only mode a document renders as at least one decimal digit, with no leading zero unless the count is 0, whose value is its element count; otherwise, and for every non-document, the default rendering |
| Flattener.Sanitize | JsonToCsv/Program.cs:204-207 | an empty second delimiter, or a value without the first delimiter, is left unchanged; a one-character first delimiter not in the second one never survives |
| Flattener.Recurse | JsonToCsv/Program.cs:185-217 | the in-place walk leaves the buffer equal to `Flatten` of its old contents over the document |
| Flattener.WriteEffect | JsonToCsv/Program.cs:211-214 | writing a position list sets exactly those positions to the value and keeps every other one |
| Flattener.FlattenFrame | JsonToCsv/Program.cs:187-215 | the walk adds exactly the positions mapped from the names it visits, nested documents included, and keeps every other position |
| Flattener.VisitFrame | JsonToCsv/Program.cs:189-215 | one element, its nested document first, adds exactly the positions mapped from its own and nested names |
| Flattener.OnlyHeaderPositionsWritten | JsonToCsv/Program.cs:208-215 | every position the walk writes into a fresh buffer is below the header length |
| Flattener.WriteUniform | JsonToCsv/Program.cs:210-214 | writing one value to all positions of a key keeps equally named positions in agreement |
| Flattener.FlattenUniform | JsonToCsv/Program.cs:187-215 | if all positions of each key agree before the walk, they agree after it |
| Flattener.VisitUniform | JsonToCsv/Program.cs:189-215 | the same for the visit of one element |
| Flattener.RowBroadcast | JsonToCsv/Program.cs:208-214 | two header positions whose names are equal ignoring case are both filled or both empty, with the same text |
| Flattener.OuterOverridesInner | JsonToCsv/Program.cs:189-214 | an element's own value is written after its nested document is walked, so it holds every position of its name |
| Flattener.FlattenAppend | JsonToCsv/Program.cs:187 | walking two runs of elements in sequence is walking their concatenation |
| Flattener.LaterSiblingWins | JsonToCsv/Program.cs:187-215 | a position an element writes keeps that element's value unless a later sibling maps to it |
| Flattener.FlattenValuesFree | JsonToCsv/Program.cs:204-214 | with a one-character first delimiter and a second one without it, no written value contains the first delimiter |
| Flattener.VisitValuesFree | JsonToCsv/Program.cs:189-214 | the same for the visit of one element |
| Flattener.NestedDocumentExample | JsonToCsv/Program.cs:189-214 | header `a,b` and `{"a": {"b": 1}}`: position 1 gets the inner value, position 0 the rendering of the nested document |
| Flattener.ArrayContentsNotVisited | JsonToCsv/Program.cs:189-192 | documents inside an array are not visited, so their names write nothing |
| RowAssembly.TextBuffer.constructor | JsonToCsv/Program.cs:102 | a new string builder is empty |
| RowAssembly.TextBuffer.Append | JsonToCsv/Program.cs:118 | appending adds the text at the end |
| RowAssembly.TextBuffer.AppendLine | JsonToCsv/Program.cs:133 | appending a line adds the text and the line terminator |
| RowAssembly.TextBuffer.SetLength | JsonToCsv/Program.cs:132 | setting a shorter length cuts the text there |
| RowAssembly.TextBuffer.Clear | JsonToCsv/Program.cs:147 | clearing empties the text |
| RowAssembly.AppendFields | JsonToCsv/Program.cs:120-130 | the field loop appends every position's value, or nothing where the position is missing, each followed by the delimiter |
| RowAssembly.TerminatedIsJoin | JsonToCsv/Program.cs:120-132 | fields each followed by the delimiter are their join plus one trailing delimiter |
| RowAssembly.RowAssembled | JsonToCsv/Program.cs:118-130 | file name, delimiter and delimiter-terminated fields are the row plus one delimiter |
| RowAssembly.RowCut | JsonToCsv/Program.cs:118-133 | cutting one delimiter's length and ending the line leaves exactly the row and the terminator |
| RowAssembly.TrimSuffix | JsonToCsv/Program.cs:132 | cutting a text back to its prefix's length leaves the prefix |
| RowAssembly.ProcessFile | JsonToCsv/Program.cs:116-133 | one parsed file appends exactly `FileLine`: file name, the `n` fields joined by the delimiter, no trailing delimiter, the terminator |
| RowAssembly.RowFields | JsonToCsv/Program.cs:118-133 | with a one-character delimiter in no value or file name, the row splits into the file name and exactly `n` fields; a missing position is an empty field, not a dropped column |
| RowAssembly.RowDelimiterCount | JsonToCsv/Program.cs:118-133 | under the same conditions the row holds exactly `n` delimiters |
| RowAssembly.HeaderColumns | JsonToCsv/Program.cs:104-108 | the header line has a `FileName` column only when asked for, so without it the header has one column fewer than the rows |
| RowAssembly.SanitizedRowFields | JsonToCsv/Program.cs:118-133 | with delimiter substitution on, the row of any document splits into the file name and one field per header position |
| Batching.BatchSize | JsonToCsv/Program.cs:60-74 | a parsed size that is not positive aborts the run; an unparsable answer becomes -1 (unbounded); a positive one is kept |
| Batching.FirstDelimiter | JsonToCsv/Program.cs:31-35 | the delimiter is never empty: an empty answer means a comma, any other answer is kept |
| Batching.IsYes | JsonToCsv/Program.cs:53 | a yes/no answer is yes only when it is exactly `Y` or `y`; used for both the counts-only and the file-name answers (lines 53 and 78) |
| Batching.BatchName | JsonToCsv/Program.cs:146 | batch q is written as `j_results_<q>.txt` with q in decimal; `BatchNamesDistinct` states that the names are distinct |
| Batching.BatchNamesDistinct | JsonToCsv/Program.cs:145-153 | distinct batch numbers give distinct file names, none of which is the final batch's name |
| Batching.Lines | JsonToCsv/Program.cs:111-138 | one line per input file, in processing order, so unparsable files count too |
| Batching.StartBuffer | JsonToCsv/Program.cs:102-109 | the buffer starts with the header line and its terminator |
| Batching.AppendOutcome | JsonToCsv/Program.cs:114-138 | a parsed file appends its line; an unparsable one appends nothing |
| Batching.Convert | JsonToCsv/Program.cs:88-154 | the loop returns exactly the batches of the batch machine over the header line and the files' lines |
| Batching.Execute | JsonToCsv/Program.cs:30-154 | an empty header aborts, then a non-positive parsed batch size aborts; otherwise the run's batches are returned |
| Batching.StepKeepsEverything | JsonToCsv/Program.cs:140-148 | a flush moves the buffer into a batch without losing or repeating text |
| Batching.AccumulateKeepsEverything | JsonToCsv/Program.cs:110-150 | the emitted batches followed by the buffer are always the header line and every line so far, in order |
| Batching.MergeIsHeaderThenLines | JsonToCsv/Program.cs:140-153 | concatenated in emission order, all batches are the header line once and then every file's line in processing order, for every batch size |
| Batching.UnboundedAccumulate | JsonToCsv/Program.cs:140-150 | with batch size -1 nothing is emitted before the end, and the buffer holds everything |
| Batching.UnboundedSingleBatch | JsonToCsv/Program.cs:140-154 | with batch size -1 the run emits one final batch holding everything |
| Batching.StepArithmetic | JsonToCsv/Program.cs:142-145 | with m batches full, the test `counter % batchSize == 0` holds exactly at the next boundary, where `counter / batchSize` is m + 1 |
| Batching.BoundaryDiv | JsonToCsv/Program.cs:145 | a counter between boundaries m and m + 1 divides to m |
| Batching.LayoutEntry | JsonToCsv/Program.cs:140-148 | batch q + 1 is named `j_results_<q+1>.txt` and holds the lines of files q·B + 1 to (q + 1)·B, with the header line first only when q is 0 |
| Batching.LayoutPrefix | JsonToCsv/Program.cs:140-148 | complete batches do not change when later files follow |
| Batching.BufferGrows | JsonToCsv/Program.cs:118-133 | the buffer plus the new line is everything since the last boundary |
| Batching.LaidOutStart | JsonToCsv/Program.cs:109 | before any file there is no batch and the buffer is the header line |
| Batching.LaidOutFlush | JsonToCsv/Program.cs:142-148 | reaching a boundary emits the buffer as the next numbered batch and empties the buffer |
| Batching.LaidOutKeep | JsonToCsv/Program.cs:140-149 | short of a boundary the line joins the buffer and the batches stay |
| Batching.LaidOutStep | JsonToCsv/Program.cs:113-149 | one file keeps the batch layout |
| Batching.AccumulateLaidOut | JsonToCsv/Program.cs:110-150 | every run of the machine has the batch layout for some number of full batches |
| Batching.NumberedBatches | JsonToCsv/Program.cs:110-150 | with batch size B > 0, after k files the emitted batches are the k / B laid-out ones, and the buffer holds the lines since the last flush, the header line too when k < B |
| Batching.FinalBatch | JsonToCsv/Program.cs:151-154 | the batches are the numbered ones, then a final one exactly when something remains since the last flush |
| Batching.FiveFilesInPairs | JsonToCsv/Program.cs:140-154 | batch size 2 and five files: two two-line batches, the first with the header line, then a final batch with the fifth line |
| Batching.UnparsableAddsNoLine | JsonToCsv/Program.cs:113-138 | one more unparsable file leaves the concatenated output unchanged |
| Batching.DefaultRunSingleBatch | JsonToCsv/Program.cs:71-74 | with the default batch size the run emits one final batch: the header line, then every file's line |

## Left out

- Console prompts and reads, lines 16-81. The answers are parameters of `Batching.Execute`: the raw delimiter and yes/no answers, and the batch size as the result of `int.TryParse` (`None` when it fails).
- The directory prompt and the directory existence check, lines 16-27. These are file-system plumbing.
- Deleting old `j_results*` files, reading the input files, and writing the batch files, lines 82-85, 111, 116, 146 and 153. The input is a sequence of per-file outcomes in enumeration order. Emitted batches are returned as (name, contents) artifacts.
- The merge into `results.txt` and the `FileInfoComparer` sort by last write time, lines 156-177 and 220-230. The order depends on file-system timestamps. `MergeIsHeaderThenLines` states what concatenating the artifacts in emission order gives. The merge writes each line again with `WriteLine`, and that re-termination is not modelled.
- `BsonDocument.Parse`. A file is either `Parsed(name, tree)` or `Unparsable`. Exceptions raised after parsing are not modelled.
- `BsonValue.ToString()`. It is the parameter `toText`, an arbitrary function on nodes.
- Batching.Execute: takes the batch-size parse as an `Option<int>` instead of the text and `int.TryParse`. A failed parse stands for the 0 that `TryParse` leaves behind.
- Full Unicode `OrdinalIgnoreCase`. The model folds ASCII letters only, and keys the index by the folded name instead of the first spelling seen.
- `Environment.NewLine` is taken to be `"\n"`.
- RowFields, RowDelimiterCount and SanitizedRowFields are stated for a one-character delimiter only. With a longer delimiter the row can hold more occurrences of it than there are field boundaries. For example, delimiter `aba`, file name `ab`, one value `ba`: the row `abababa` holds two non-overlapping occurrences for one field.
- The directories. Stale `j_results*` files are deleted in the JSON directory (line 82), but batches are written to the working directory (line 146), and the merge reads them from there (line 157). The model has no directories, so any clash between the two is not captured.
- Null strings. An absent second delimiter is the empty string.
- The `DateTime.Now` messages and progress output.

## Findings

No defect in the code is claimed. The differences listed at the top are between the code and the tool's prose description, and the model follows the code.
