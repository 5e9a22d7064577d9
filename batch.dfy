/**
 * The run: configuration checks, the output buffer seeded with the header
 * line, one line per parsed file, and the counter-driven flush that emits
 * numbered batches and a final batch. Emitted batches are returned as
 * (name, contents) artifacts instead of being written to disk.
 */
module Batching {
  import opened Wrappers
  import opened Text
  import opened Bson
  import opened ColumnIndex
  import opened Flattener
  import opened RowAssembly

  /** What reading and parsing one input file gave: its name and tree, or a failure. */
  datatype Outcome = Unparsable | Parsed(fileName: string, document: seq<Element>)

  /** An emitted batch: the file name it is written under and its text. */
  datatype Artifact = Artifact(name: string, contents: string)

  /** The configuration errors that end the run before any file is read. */
  datatype ConfigError = EmptyHeader | NonPositiveBatchSize

  // ---------------------------------------------------------------------
  // Configuration
  // ---------------------------------------------------------------------

  /**
   * The batch size from the integer parse of the answer (None when it did
   * not parse): a parsed value that is not positive aborts the run; an
   * unparsable answer leaves 0, which becomes -1, meaning no batches.
   */
  function BatchSize(parsed: Option<int>): (r: Result<int, ConfigError>)
    ensures r.Failure? <==> parsed.Some? && parsed.value <= 0
    ensures r.Failure? ==> r.error == NonPositiveBatchSize
    ensures parsed.None? ==> r == Success(-1)
    ensures parsed.Some? && parsed.value > 0 ==> r == Success(parsed.value)
  {
    var batchSize := if parsed.Some? then parsed.value else 0;
    if parsed.Some? && batchSize <= 0 then Failure(NonPositiveBatchSize)
    else Success(if batchSize <= 0 then -1 else batchSize)
  }

  /** A yes/no answer counts as yes only when it is exactly "Y" or "y". */
  predicate IsYes(answer: string)
  {
    answer == "Y" || answer == "y"
  }

  /** An empty delimiter answer means a comma. */
  function FirstDelimiter(answer: string): (d: string)
    ensures |d| > 0
    ensures answer == "" ==> d == ","
    ensures answer != "" ==> d == answer
  {
    if answer == "" then "," else answer
  }

  // ---------------------------------------------------------------------
  // The batch machine as functions
  // ---------------------------------------------------------------------

  function BatchName(q: nat): string
  {
    "j_results_" + NatToString(q) + ".txt"
  }

  const FinalName: string := "j_results_final.txt"

  /** Distinct batch numbers give distinct file names, and none is the final batch's name. */
  lemma BatchNamesDistinct(p: nat, q: nat)
    ensures BatchName(p) == BatchName(q) <==> p == q
    ensures BatchName(q) != FinalName
  {
    var prefix := "j_results_";
    var sp, sq := NatToString(p), NatToString(q);
    if BatchName(p) == BatchName(q) {
      assert |sp| == |sq|;
      assert sp == BatchName(p)[|prefix|..|prefix| + |sp|];
      assert sq == BatchName(q)[|prefix|..|prefix| + |sq|];
      NatToStringValue(p);
      NatToStringValue(q);
    }
    assert BatchName(q)[|prefix|] == sq[0];
    assert FinalName[|prefix|] == 'f';
  }

  /** The output buffer and the batches emitted so far. */
  datatype Accumulator = Accumulator(buffer: string, emitted: seq<Artifact>)

  /**
   * The k-th file (counting from 1) appends its line and, when the batch
   * size is positive and divides k, the buffer is emitted as batch
   * k / batchSize and cleared, even if it is empty.
   */
  function Step(acc: Accumulator, line: string, count: nat, batchSize: int): Accumulator
  {
    var buffer := acc.buffer + line;
    if batchSize > 0 && count % batchSize == 0 then
      Accumulator("", acc.emitted + [Artifact(BatchName(count / batchSize), buffer)])
    else Accumulator(buffer, acc.emitted)
  }

  /** The buffer and the batches after the files whose lines are `lines` (an unparsable file has the empty line). */
  function Accumulate(seed: string, lines: seq<string>, batchSize: int): Accumulator
    decreases |lines|
  {
    if lines == [] then Accumulator(seed, [])
    else Step(Accumulate(seed, lines[..|lines| - 1], batchSize), lines[|lines| - 1], |lines|, batchSize)
  }

  /** All emitted batches: the numbered ones, then the rest of the buffer if it is not empty. */
  function Batches(seed: string, lines: seq<string>, batchSize: int): seq<Artifact>
  {
    var acc := Accumulate(seed, lines, batchSize);
    if |acc.buffer| > 0 then acc.emitted + [Artifact(FinalName, acc.buffer)] else acc.emitted
  }

  /** The line a file contributes; an unparsable file contributes nothing. */
  function LineOf(file: Outcome, headerInOrder: seq<string>, rd: Rendering): string
    requires rd.Valid()
  {
    match file
    case Unparsable => ""
    case Parsed(name, document) => FileLine(name, document, IndexOf(headerInOrder), |headerInOrder|, rd)
  }

  /** The lines of all files, in processing order. */
  function Lines(files: seq<Outcome>, headerInOrder: seq<string>, rd: Rendering): (lines: seq<string>)
    requires rd.Valid()
    ensures |lines| == |files|
  {
    seq(|files|, i requires 0 <= i < |files| => LineOf(files[i], headerInOrder, rd))
  }

  lemma AccumulatePrefix(seed: string, lines: seq<string>, n: nat, batchSize: int)
    requires 1 <= n <= |lines|
    ensures Accumulate(seed, lines[..n], batchSize) ==
              Step(Accumulate(seed, lines[..n - 1], batchSize), lines[n - 1], n, batchSize)
  {
    assert lines[..n][..n - 1] == lines[..n - 1];
  }

  /** The header line with its line terminator, which opens the buffer. */
  function Seed(headerInOrder: seq<string>, first: string, fileNameNeeded: bool): string
  {
    HeaderLine(headerInOrder, first, fileNameNeeded) + NewLine
  }

  /** What a run with valid settings emits. */
  function Outputs(files: seq<Outcome>, header: string, first: string, second: string, countsOnly: bool,
                   batchSize: int, fileNameNeeded: bool, toText: Node -> string): seq<Artifact>
    requires |first| > 0
  {
    var headerInOrder := Split(header, ',');
    Batches(Seed(headerInOrder, first, fileNameNeeded),
            Lines(files, headerInOrder, Rendering(countsOnly, first, second, toText)), batchSize)
  }

  // ---------------------------------------------------------------------
  // The run as the converter performs it
  // ---------------------------------------------------------------------

  /** A new buffer holding the header line, with the `FileName` column only when asked for. */
  method StartBuffer(headerInOrder: seq<string>, first: string, fileNameNeeded: bool) returns (sb: TextBuffer)
    ensures fresh(sb) && sb.text == Seed(headerInOrder, first, fileNameNeeded)
  {
    sb := new TextBuffer();
    var h := "";
    if fileNameNeeded {
      h := "FileName" + first;
    }
    h := h + Join(headerInOrder, first);
    sb.AppendLine(h);
  }

  /** The body of the per-file try block: a parsed file appends its line, a failure nothing. */
  method AppendOutcome(sb: TextBuffer, file: Outcome, headerInOrder: seq<string>, headerToIndexesMap: Index,
                       first: string, second: string, countsOnly: bool, toText: Node -> string)
    requires |first| > 0 && headerToIndexesMap == IndexOf(headerInOrder)
    modifies sb
    ensures sb.text == old(sb.text) + LineOf(file, headerInOrder, Rendering(countsOnly, first, second, toText))
  {
    match file
    case Parsed(name, document) =>
      ProcessFile(sb, name, document, headerInOrder, headerToIndexesMap, first, second, countsOnly, toText);
    case Unparsable =>
  }

  /**
   * Split the header on commas (whatever the delimiter), build the index,
   * seed the buffer with the header line, then for each file count it,
   * append its line if it parsed, and flush on every multiple of the batch
   * size; at the end flush what is left, if anything.
   */
  method Convert(files: seq<Outcome>, header: string, first: string, second: string, countsOnly: bool,
                 batchSize: int, fileNameNeeded: bool, toText: Node -> string)
    returns (artifacts: seq<Artifact>)
    requires |first| > 0
    ensures artifacts == Outputs(files, header, first, second, countsOnly, batchSize, fileNameNeeded, toText)
  {
    var headerInOrder := Split(header, ',');
    var headerToIndexesMap := BuildIndex(headerInOrder);
    var sb := StartBuffer(headerInOrder, first, fileNameNeeded);
    ghost var seed := Seed(headerInOrder, first, fileNameNeeded);
    ghost var lines := Lines(files, headerInOrder, Rendering(countsOnly, first, second, toText));
    artifacts := [];
    var currentFileNumber := 0;
    while currentFileNumber < |files|
      invariant 0 <= currentFileNumber <= |files|
      invariant sb.text == Accumulate(seed, lines[..currentFileNumber], batchSize).buffer
      invariant artifacts == Accumulate(seed, lines[..currentFileNumber], batchSize).emitted
    {
      var file := files[currentFileNumber];
      AppendOutcome(sb, file, headerInOrder, headerToIndexesMap, first, second, countsOnly, toText);
      currentFileNumber := currentFileNumber + 1;
      AccumulatePrefix(seed, lines, currentFileNumber, batchSize);
      if batchSize > 0 {
        if currentFileNumber % batchSize == 0 {
          var q := currentFileNumber / batchSize;
          artifacts := artifacts + [Artifact(BatchName(q), sb.text)];
          sb.Clear();
        }
      }
    }
    assert lines[..currentFileNumber] == lines;
    if |sb.text| > 0 {
      artifacts := artifacts + [Artifact(FinalName, sb.text)];
    }
  }

  /**
   * The whole run from the operator's answers: an empty header or a parsed
   * batch size that is not positive ends it with an error; otherwise the
   * batches of `Convert` are emitted.
   */
  method Execute(firstAnswer: string, secondDelimiter: string, header: string, countsAnswer: string,
                 batchSizeParsed: Option<int>, fileNameAnswer: string, files: seq<Outcome>, toText: Node -> string)
    returns (r: Result<seq<Artifact>, ConfigError>)
    ensures header == "" ==> r == Failure(EmptyHeader)
    ensures header != "" && BatchSize(batchSizeParsed).Failure? ==> r == Failure(NonPositiveBatchSize)
    ensures header != "" && BatchSize(batchSizeParsed).Success? ==>
              r == Success(Outputs(files, header, FirstDelimiter(firstAnswer), secondDelimiter, IsYes(countsAnswer),
                                   BatchSize(batchSizeParsed).value, IsYes(fileNameAnswer), toText))
  {
    var firstDelimiter := FirstDelimiter(firstAnswer);
    if header == "" {
      return Failure(EmptyHeader);
    }
    var countsOnly := IsYes(countsAnswer);
    var batchSize := BatchSize(batchSizeParsed);
    if batchSize.Failure? {
      return Failure(batchSize.error);
    }
    var fileNameNeeded := IsYes(fileNameAnswer);
    var artifacts := Convert(files, header, firstDelimiter, secondDelimiter, countsOnly,
                             batchSize.value, fileNameNeeded, toText);
    return Success(artifacts);
  }

  // ---------------------------------------------------------------------
  // What the batches hold
  // ---------------------------------------------------------------------

  /** Strings one after the other. */
  function Concat(parts: seq<string>): string
    decreases |parts|
  {
    if parts == [] then "" else Concat(parts[..|parts| - 1]) + parts[|parts| - 1]
  }

  /** The contents of the artifacts one after the other: the merge, given them in emission order. */
  function Merged(artifacts: seq<Artifact>): string
    decreases |artifacts|
  {
    if artifacts == [] then "" else Merged(artifacts[..|artifacts| - 1]) + artifacts[|artifacts| - 1].contents
  }

  lemma MergedAppend(artifacts: seq<Artifact>, a: Artifact)
    ensures Merged(artifacts + [a]) == Merged(artifacts) + a.contents
  {
    assert (artifacts + [a])[..|artifacts|] == artifacts;
  }

  /** Nothing is lost or repeated: the emitted batches and the buffer hold the seed and every line, in order. */
  lemma StepKeepsEverything(acc: Accumulator, line: string, count: nat, batchSize: int)
    ensures Merged(Step(acc, line, count, batchSize).emitted) + Step(acc, line, count, batchSize).buffer
         == Merged(acc.emitted) + acc.buffer + line
  {
    if batchSize > 0 && count % batchSize == 0 {
      MergedAppend(acc.emitted, Artifact(BatchName(count / batchSize), acc.buffer + line));
    }
  }

  lemma {:induction false} AccumulateKeepsEverything(seed: string, lines: seq<string>, batchSize: int)
    ensures Merged(Accumulate(seed, lines, batchSize).emitted) + Accumulate(seed, lines, batchSize).buffer
         == seed + Concat(lines)
    decreases |lines|
  {
    if lines != [] {
      var init := lines[..|lines| - 1];
      var last := lines[|lines| - 1];
      AccumulateKeepsEverything(seed, init, batchSize);
      StepKeepsEverything(Accumulate(seed, init, batchSize), last, |lines|, batchSize);
    }
  }

  /**
   * The merge of all batches, in the order they were emitted, is the header
   * line once, then every file's line in processing order, whatever the
   * batch size.
   */
  lemma MergeIsHeaderThenLines(seed: string, lines: seq<string>, batchSize: int)
    ensures Merged(Batches(seed, lines, batchSize)) == seed + Concat(lines)
  {
    var acc := Accumulate(seed, lines, batchSize);
    AccumulateKeepsEverything(seed, lines, batchSize);
    if |acc.buffer| > 0 {
      MergedAppend(acc.emitted, Artifact(FinalName, acc.buffer));
    }
  }

  /** Without a batch size nothing is emitted before the end. */
  lemma {:induction false} UnboundedAccumulate(seed: string, lines: seq<string>, batchSize: int)
    requires batchSize <= 0
    ensures Accumulate(seed, lines, batchSize) == Accumulator(seed + Concat(lines), [])
    decreases |lines|
  {
    if lines != [] {
      UnboundedAccumulate(seed, lines[..|lines| - 1], batchSize);
    }
  }

  /** Without a batch size the whole output is one final batch. */
  lemma UnboundedSingleBatch(seed: string, lines: seq<string>, batchSize: int)
    requires batchSize <= 0 && seed != ""
    ensures Batches(seed, lines, batchSize) == [Artifact(FinalName, seed + Concat(lines))]
  {
    UnboundedAccumulate(seed, lines, batchSize);
  }

  /** The number of files before batch q + 1 starts: q times the batch size. */
  function Boundary(q: nat, b: nat): nat
  {
    if q == 0 then 0 else Boundary(q - 1, b) + b
  }

  lemma {:induction false} BoundaryIsProduct(q: nat, b: nat)
    ensures Boundary(q, b) == q * b
  {
    if q > 0 {
      BoundaryIsProduct(q - 1, b);
      assert (q - 1) * b + b == q * b;
    }
  }

  lemma DivUnique(x: int, b: int, q: int, r: int)
    requires b > 0 && 0 <= r < b && x == q * b + r
    ensures x / b == q && x % b == r
  {
    var q', r' := x / b, x % b;
    assert x == q' * b + r';
    if q' > q {
      assert (q + 1) * b == q * b + b;
      MulLe(q + 1, q', b);
    } else if q' < q {
      assert (q' + 1) * b == q' * b + b;
      MulLe(q' + 1, q, b);
    }
  }

  lemma {:induction false} MulLe(a: int, c: int, b: int)
    requires a <= c && b >= 0
    ensures a * b <= c * b
    decreases c - a
  {
    if a < c {
      MulLe(a + 1, c, b);
      assert (a + 1) * b == a * b + b;
    }
  }

  /**
   * Counting files from one: the k-th file, arriving after m full batches,
   * completes batch m + 1 exactly when k reaches the next boundary, and the
   * converter's test k % B == 0 and batch number k / B say the same.
   */
  lemma StepArithmetic(k: nat, b: nat, m: nat)
    requires b > 0 && Boundary(m, b) < k <= Boundary(m, b) + b
    ensures k % b == 0 <==> k == Boundary(m, b) + b
    ensures k % b == 0 ==> k / b == m + 1
    ensures k % b != 0 ==> k / b == m
  {
    BoundaryIsProduct(m, b);
    if k == Boundary(m, b) + b {
      assert k == (m + 1) * b + 0;
      DivUnique(k, b, m + 1, 0);
    } else {
      DivUnique(k, b, m, k - m * b);
    }
  }

  lemma ConcatSnoc(lines: seq<string>, i: nat, j: nat)
    requires i <= j < |lines|
    ensures Concat(lines[i..j + 1]) == Concat(lines[i..j]) + lines[j]
  {
    assert lines[i..j + 1][..j - i] == lines[i..j];
  }

  /** The text of numbered batch q + 1: the lines from boundary q to boundary q + 1, after the header line in the first one. */
  function BatchContents(seed: string, lines: seq<string>, b: nat, q: nat): string
    requires Boundary(q + 1, b) <= |lines|
  {
    (if q == 0 then seed else "") + Concat(lines[Boundary(q, b)..Boundary(q + 1, b)])
  }

  /** The first m numbered batches that `lines` fill. */
  function Layout(seed: string, lines: seq<string>, b: nat, m: nat): seq<Artifact>
    requires Boundary(m, b) <= |lines|
    decreases m
  {
    if m == 0 then []
    else Layout(seed, lines, b, m - 1) + [Artifact(BatchName(m), BatchContents(seed, lines, b, m - 1))]
  }

  /** The layout has m batches, and batch q + 1 is named after its number and holds BatchContents for q. */
  lemma {:induction false} LayoutEntry(seed: string, lines: seq<string>, b: nat, m: nat, q: nat)
    requires Boundary(m, b) <= |lines| && q < m
    ensures |Layout(seed, lines, b, m)| == m
    ensures Boundary(q + 1, b) <= |lines|
    ensures Layout(seed, lines, b, m)[q] == Artifact(BatchName(q + 1), BatchContents(seed, lines, b, q))
    decreases m
  {
    if q < m - 1 {
      LayoutEntry(seed, lines, b, m - 1, q);
    } else if m > 1 {
      LayoutEntry(seed, lines, b, m - 1, 0);
    }
  }

  /** A numbered batch's text does not change when more lines follow. */
  lemma BatchContentsPrefix(seed: string, lines: seq<string>, b: nat, q: nat)
    requires |lines| >= 1 && Boundary(q + 1, b) <= |lines| - 1
    ensures BatchContents(seed, lines[..|lines| - 1], b, q) == BatchContents(seed, lines, b, q)
  {
    var init := lines[..|lines| - 1];
    assert init[Boundary(q, b)..Boundary(q + 1, b)] == lines[Boundary(q, b)..Boundary(q + 1, b)];
  }

  /** The complete batches do not change when more lines follow. */
  lemma {:induction false} LayoutPrefix(seed: string, lines: seq<string>, b: nat, m: nat)
    requires |lines| >= 1 && Boundary(m, b) <= |lines| - 1
    ensures Layout(seed, lines[..|lines| - 1], b, m) == Layout(seed, lines, b, m)
    decreases m
  {
    if m > 0 {
      LayoutPrefix(seed, lines, b, m - 1);
      BatchContentsPrefix(seed, lines, b, m - 1);
    }
  }

  /**
   * The state after `lines` when m batches are full: the m numbered batches
   * of the layout, and a buffer holding the lines since boundary m, after
   * the header line while no batch has been emitted.
   */
  ghost predicate LaidOut(seed: string, lines: seq<string>, b: nat, m: nat, acc: Accumulator)
  {
    && Boundary(m, b) <= |lines| < Boundary(m, b) + b
    && acc.emitted == Layout(seed, lines, b, m)
    && acc.buffer == (if m == 0 then seed else "") + Concat(lines[Boundary(m, b)..])
  }

  /** The buffer before the last file, plus that file's line, is everything since boundary m. */
  lemma BufferGrows(seed: string, lines: seq<string>, b: nat, m: nat, acc: Accumulator)
    requires |lines| >= 1
    requires LaidOut(seed, lines[..|lines| - 1], b, m, acc)
    ensures acc.buffer + lines[|lines| - 1] == (if m == 0 then seed else "") + Concat(lines[Boundary(m, b)..])
  {
    var k := |lines|;
    var start := Boundary(m, b);
    assert lines[..k - 1][start..] == lines[start..k - 1];
    assert lines[start..] == lines[start..k];
    ConcatSnoc(lines, start, k - 1);
  }

  /** The last file reaches boundary m + 1: the batch is emitted and the buffer empties. */
  lemma LaidOutFlush(seed: string, lines: seq<string>, b: nat, m: nat, acc: Accumulator)
    requires |lines| >= 1 && |lines| == Boundary(m, b) + b
    requires LaidOut(seed, lines[..|lines| - 1], b, m, acc)
    ensures LaidOut(seed, lines, b, m + 1, Accumulator("", acc.emitted + [Artifact(BatchName(m + 1), acc.buffer + lines[|lines| - 1])]))
  {
    BufferGrows(seed, lines, b, m, acc);
    assert Boundary(m + 1, b) == |lines|;
    assert lines[Boundary(m + 1, b)..] == [];
    assert lines[Boundary(m, b)..] == lines[Boundary(m, b)..Boundary(m + 1, b)];
    if b > 0 {
      LayoutPrefix(seed, lines, b, m);
    }
  }

  /** The last file stays short of boundary m + 1: its line joins the buffer. */
  lemma LaidOutKeep(seed: string, lines: seq<string>, b: nat, m: nat, acc: Accumulator)
    requires |lines| >= 1 && |lines| < Boundary(m, b) + b
    requires LaidOut(seed, lines[..|lines| - 1], b, m, acc)
    ensures LaidOut(seed, lines, b, m, Accumulator(acc.buffer + lines[|lines| - 1], acc.emitted))
  {
    BufferGrows(seed, lines, b, m, acc);
    LayoutPrefix(seed, lines, b, m);
  }

  /** Before any file: no batch, and the buffer holds the header line. */
  lemma LaidOutStart(seed: string, b: nat)
    requires b > 0
    ensures LaidOut(seed, [], b, 0, Accumulator(seed, []))
  {
    var none: seq<string> := [];
    assert none[0..] == [];
  }

  /** One Step from a laid-out state after m full batches gives a laid-out state again. */
  lemma LaidOutStep(seed: string, lines: seq<string>, b: nat, m: nat, acc: Accumulator) returns (next: nat)
    requires b > 0 && |lines| >= 1
    requires LaidOut(seed, lines[..|lines| - 1], b, m, acc)
    ensures LaidOut(seed, lines, b, next, Step(acc, lines[|lines| - 1], |lines|, b))
  {
    var k := |lines|;
    StepArithmetic(k, b, m);
    if k % b == 0 {
      LaidOutFlush(seed, lines, b, m, acc);
      next := m + 1;
    } else {
      LaidOutKeep(seed, lines, b, m, acc);
      next := m;
    }
  }

  /** Every run of the batch machine is laid out, for some number m of full batches. */
  lemma {:induction false} AccumulateLaidOut(seed: string, lines: seq<string>, b: nat) returns (m: nat)
    requires b > 0
    ensures LaidOut(seed, lines, b, m, Accumulate(seed, lines, b))
    decreases |lines|
  {
    if lines == [] {
      LaidOutStart(seed, b);
      m := 0;
    } else {
      var init := lines[..|lines| - 1];
      var before := AccumulateLaidOut(seed, init, b);
      m := LaidOutStep(seed, lines, b, before, Accumulate(seed, init, b));
    }
  }

  /** The number of full batches is the file count divided by the batch size. */
  lemma BoundaryDiv(k: nat, b: nat, m: nat)
    requires b > 0 && Boundary(m, b) <= k < Boundary(m, b) + b
    ensures k / b == m
  {
    BoundaryIsProduct(m, b);
    DivUnique(k, b, m, k - m * b);
  }

  /** Exactly while the files fall short of one batch, no boundary has been passed. */
  lemma FirstBoundary(k: nat, b: nat, m: nat)
    requires Boundary(m, b) <= k < Boundary(m, b) + b
    ensures m == 0 <==> k < b
  {
    if m > 0 {
      assert Boundary(m, b) == Boundary(m - 1, b) + b;
    }
  }

  /**
   * With a positive batch size B, after k files the numbered batches are
   * the layout of k / B batches: batch q + 1 holds the lines of files
   * q·B + 1 to (q + 1)·B (Boundary(q, B) is q·B), preceded by the header
   * line only in the first batch (LayoutEntry); the buffer holds the lines
   * since the last flush, and the header line while no batch has been
   * emitted.
   */
  lemma NumberedBatches(seed: string, lines: seq<string>, b: nat)
    requires b > 0
    ensures Boundary(|lines| / b, b) <= |lines|
    ensures Accumulate(seed, lines, b).emitted == Layout(seed, lines, b, |lines| / b)
    ensures Accumulate(seed, lines, b).buffer == (if |lines| < b then seed else "") + Concat(lines[Boundary(|lines| / b, b)..])
  {
    var m := AccumulateLaidOut(seed, lines, b);
    BoundaryDiv(|lines|, b, m);
    FirstBoundary(|lines|, b, m);
  }

  /**
   * With a positive batch size, a final batch follows the numbered ones
   * exactly when lines (or the header line) remain since the last flush.
   */
  lemma FinalBatch(seed: string, lines: seq<string>, b: nat)
    requires b > 0
    ensures Boundary(|lines| / b, b) <= |lines|
    ensures var rest := (if |lines| < b then seed else "") + Concat(lines[Boundary(|lines| / b, b)..]);
            Batches(seed, lines, b) ==
              Layout(seed, lines, b, |lines| / b) + (if rest != "" then [Artifact(FinalName, rest)] else [])
  {
    NumberedBatches(seed, lines, b);
  }

  /** Batch size 2 and five files: two numbered batches of two lines and a final batch of one. */
  lemma FiveFilesInPairs(seed: string, l0: string, l1: string, l2: string, l3: string, l4: string)
    requires l4 != ""
    ensures Batches(seed, [l0, l1, l2, l3, l4], 2) ==
              [Artifact("j_results_1.txt", seed + l0 + l1), Artifact("j_results_2.txt", l2 + l3),
               Artifact("j_results_final.txt", l4)]
  {
    var lines := [l0, l1, l2, l3, l4];
    assert NatToString(1) == "1" && NatToString(2) == "2";
    assert BatchName(1) == "j_results_1.txt" && BatchName(2) == "j_results_2.txt";
    var b1 := Artifact(BatchName(1), seed + l0 + l1);
    var b2 := Artifact(BatchName(2), l2 + l3);
    assert [l0][..0] == [];
    assert Accumulate(seed, [l0], 2) == Accumulator(seed + l0, []);
    assert [l0, l1][..1] == [l0];
    assert Accumulate(seed, [l0, l1], 2) == Accumulator("", [b1]);
    assert [l0, l1, l2][..2] == [l0, l1];
    assert Accumulate(seed, [l0, l1, l2], 2) == Accumulator(l2, [b1]);
    assert [l0, l1, l2, l3][..3] == [l0, l1, l2];
    assert 4 % 2 == 0 && 4 / 2 == 2;
    assert Accumulate(seed, [l0, l1, l2, l3], 2) == Step(Accumulate(seed, [l0, l1, l2], 2), l3, 4, 2);
    assert Accumulate(seed, [l0, l1, l2, l3], 2) == Accumulator("", [b1, b2]);
    assert lines[..4] == [l0, l1, l2, l3];
    assert 5 % 2 == 1;
    assert Accumulate(seed, lines, 2) == Step(Accumulate(seed, [l0, l1, l2, l3], 2), l4, 5, 2);
    assert Accumulate(seed, lines, 2) == Accumulator(l4, [b1, b2]);
  }

  // ---------------------------------------------------------------------
  // Properties of a whole run
  // ---------------------------------------------------------------------

  /**
   * An unparsable file adds no line: appending one to the input leaves the
   * merged output unchanged, though it still counts towards the batch
   * boundaries.
   */
  lemma UnparsableAddsNoLine(files: seq<Outcome>, header: string, first: string, second: string, countsOnly: bool,
                             batchSize: int, fileNameNeeded: bool, toText: Node -> string)
    requires |first| > 0
    ensures Merged(Outputs(files + [Unparsable], header, first, second, countsOnly, batchSize, fileNameNeeded, toText))
         == Merged(Outputs(files, header, first, second, countsOnly, batchSize, fileNameNeeded, toText))
  {
    var headerInOrder := Split(header, ',');
    var rd := Rendering(countsOnly, first, second, toText);
    var seed := Seed(headerInOrder, first, fileNameNeeded);
    var before := Lines(files, headerInOrder, rd);
    var after := Lines(files + [Unparsable], headerInOrder, rd);
    MergeIsHeaderThenLines(seed, before, batchSize);
    MergeIsHeaderThenLines(seed, after, batchSize);
    assert after[..|files|] == before;
    assert after[|files|] == "";
  }

  /** With the default batch size the run emits a single final batch holding the header line and every line. */
  lemma DefaultRunSingleBatch(files: seq<Outcome>, header: string, first: string, second: string, countsOnly: bool,
                              fileNameNeeded: bool, toText: Node -> string)
    requires |first| > 0
    ensures var headerInOrder := Split(header, ',');
            Outputs(files, header, first, second, countsOnly, -1, fileNameNeeded, toText) ==
              [Artifact(FinalName, Seed(headerInOrder, first, fileNameNeeded)
                                     + Concat(Lines(files, headerInOrder, Rendering(countsOnly, first, second, toText))))]
  {
    var headerInOrder := Split(header, ',');
    var seed := Seed(headerInOrder, first, fileNameNeeded);
    assert seed != "";
    UnboundedSingleBatch(seed, Lines(files, headerInOrder, Rendering(countsOnly, first, second, toText)), -1);
  }
}
