/**
 * Row assembly: the text buffer the converter accumulates into, the header
 * line, and the line written for one parsed document: the file name and
 * the delimiter, then one field per header position (empty where nothing
 * was written), each followed by the delimiter, with the last delimiter cut
 * off again.
 */
module RowAssembly {
  import opened Text
  import opened Bson
  import opened ColumnIndex
  import opened Flattener

  /** The line terminator that `AppendLine` adds. */
  const NewLine: string := "\n"

  /** A growable text buffer (a string builder). */
  class TextBuffer {
    var text: string

    constructor ()
      ensures text == ""
    {
      text := "";
    }

    method Append(s: string)
      modifies this
      ensures text == old(text) + s
    {
      text := text + s;
    }

    method AppendLine(s: string)
      modifies this
      ensures text == old(text) + s + NewLine
    {
      text := text + s + NewLine;
    }

    /** Setting the length to a smaller value cuts the text there. */
    method SetLength(n: nat)
      requires n <= |text|
      modifies this
      ensures text == old(text)[..n]
    {
      text := text[..n];
    }

    method Clear()
      modifies this
      ensures text == ""
    {
      text := "";
    }
  }

  /** The field of one position: its value, or empty when nothing was written there. */
  function Field(cells: map<nat, string>, i: nat): string
  {
    if i in cells then cells[i] else ""
  }

  /** The `n` fields of a row, in position order. */
  function Fields(cells: map<nat, string>, n: nat): seq<string>
  {
    seq(n, i requires 0 <= i < n => Field(cells, i))
  }

  /**
   * The row of a document: the file name, then the `n` fields, all separated
   * by the delimiter `d`. With no header position at all, the cut removes
   * the delimiter after the file name.
   */
  function Row(fileName: string, cells: map<nat, string>, n: nat, d: string): string
  {
    if n == 0 then fileName else fileName + d + Join(Fields(cells, n), d)
  }

  /** The header line; the `FileName` column comes only when asked for. */
  function HeaderLine(headerInOrder: seq<string>, d: string, fileNameNeeded: bool): string
  {
    (if fileNameNeeded then "FileName" + d else "") + Join(headerInOrder, d)
  }

  /** The line a parsed document contributes to the output, for a header of n names indexed by `index`. */
  function FileLine(fileName: string, document: seq<Element>, index: Index, n: nat, rd: Rendering): string
    requires rd.Valid()
  {
    Row(fileName, Flatten(map[], document, index, rd), n, rd.first) + NewLine
  }

  /** Every field followed by the delimiter, as the field loop appends them. */
  function Terminated(fields: seq<string>, d: string): string
    decreases |fields|
  {
    if fields == [] then "" else Terminated(fields[..|fields| - 1], d) + fields[|fields| - 1] + d
  }

  lemma {:induction false} TerminatedIsJoin(fields: seq<string>, d: string)
    requires |fields| >= 1
    ensures Terminated(fields, d) == Join(fields, d) + d
    decreases |fields|
  {
    var init := fields[..|fields| - 1];
    var last := fields[|fields| - 1];
    if |fields| == 1 {
      assert init == [];
    } else {
      TerminatedIsJoin(init, d);
      JoinSnoc(init, last, d);
      assert init + [last] == fields;
    }
  }

  /** The field loop: every position's field followed by the delimiter. */
  method AppendFields(sb: TextBuffer, sorted: map<nat, string>, n: nat, first: string)
    modifies sb
    ensures sb.text == old(sb.text) + Terminated(Fields(sorted, n), first)
  {
    ghost var fields := Fields(sorted, n);
    var i := 0;
    while i < n
      invariant 0 <= i <= n
      invariant sb.text == old(sb.text) + Terminated(fields[..i], first)
    {
      assert fields[..i + 1][..i] == fields[..i];
      assert Terminated(fields[..i + 1], first) == Terminated(fields[..i], first) + fields[i] + first;
      if i in sorted {
        sb.Append(sorted[i] + first);
      } else {
        sb.Append(first);
      }
      i := i + 1;
    }
    assert fields[..i] == fields;
  }

  /** The file name, the delimiter and every field each followed by the delimiter: the row and one delimiter more. */
  lemma RowAssembled(prefix: string, fileName: string, cells: map<nat, string>, n: nat, d: string)
    ensures prefix + (fileName + d) + Terminated(Fields(cells, n), d) == prefix + Row(fileName, cells, n, d) + d
  {
    if n > 0 {
      TerminatedIsJoin(Fields(cells, n), d);
    } else {
      assert Fields(cells, n) == [];
    }
  }

  /**
   * The buffer after the file name, the delimiter and the delimited fields,
   * cut by one delimiter and ended by a newline, is the row's line.
   */
  lemma RowCut(prefix: string, fileName: string, cells: map<nat, string>, n: nat, d: string)
    ensures var full := prefix + (fileName + d) + Terminated(Fields(cells, n), d);
            |d| <= |full| && full[..|full| - |d|] + "" + NewLine == prefix + Row(fileName, cells, n, d) + NewLine
  {
    RowAssembled(prefix, fileName, cells, n, d);
    TrimSuffix(prefix + Row(fileName, cells, n, d), d);
  }

  /** Cutting a text back to the length of its prefix leaves the prefix. */
  lemma TrimSuffix(prefix: string, suffix: string)
    ensures (prefix + suffix)[..|prefix|] == prefix
  {
  }

  /**
   * One parsed document: append the file name and the delimiter, walk the
   * document into a fresh position buffer, append every field with a
   * delimiter, cut the last delimiter and end the line.
   */
  method ProcessFile(sb: TextBuffer, fileName: string, document: seq<Element>,
                     headerInOrder: seq<string>, headerToIndexesMap: Index,
                     first: string, second: string, countsOnly: bool, toText: Node -> string)
    requires |first| > 0
    modifies sb
    ensures sb.text == old(sb.text) + FileLine(fileName, document, headerToIndexesMap, |headerInOrder|, Rendering(countsOnly, first, second, toText))
  {
    ghost var start := sb.text;
    var sorted := new RowBuffer();
    sb.Append(fileName + first);
    Recurse(document, headerToIndexesMap, sorted, first, second, countsOnly, toText);
    ghost var cells := sorted.cells;
    AppendFields(sb, sorted.cells, |headerInOrder|, first);
    RowCut(start, fileName, cells, |headerInOrder|, first);
    sb.SetLength(|sb.text| - |first|);
    sb.AppendLine("");
  }

  // ---------------------------------------------------------------------
  // Row shape
  // ---------------------------------------------------------------------

  /**
   * With a one-character delimiter that neither the file name nor any value
   * contains, the row splits back into the file name followed by exactly
   * `n` fields: the value of each written position and an empty field for
   * each missing one.
   */
  lemma RowFields(fileName: string, cells: map<nat, string>, n: nat, c: char)
    requires n >= 1 && c !in fileName && ValuesFree(cells, c)
    ensures var parts := Split(Row(fileName, cells, n, [c]), c);
            |parts| == n + 1 && parts[0] == fileName &&
            forall i :: 0 <= i < n ==> parts[i + 1] == (if i in cells then cells[i] else "")
  {
    var fields := Fields(cells, n);
    SplitJoin(fields, c);
    SplitPrefix(fileName, Join(fields, [c]), c);
  }

  /** Under the same conditions the row holds exactly `n` delimiters. */
  lemma RowDelimiterCount(fileName: string, cells: map<nat, string>, n: nat, c: char)
    requires n >= 1 && c !in fileName && ValuesFree(cells, c)
    ensures CountChar(Row(fileName, cells, n, [c]), c) == n
  {
    var fields := Fields(cells, n);
    JoinCount(fields, c);
    CountCharAppend(fileName + [c], Join(fields, [c]), c);
    CountCharAppend(fileName, [c], c);
  }

  /**
   * The header line has a `FileName` column only when it was asked for,
   * while every row starts with the file name: without the option the
   * header has one column fewer than the rows.
   */
  lemma HeaderColumns(headerInOrder: seq<string>, c: char, fileNameNeeded: bool)
    requires |headerInOrder| >= 1 && c !in "FileName"
    requires forall i :: 0 <= i < |headerInOrder| ==> c !in headerInOrder[i]
    ensures |Split(HeaderLine(headerInOrder, [c], fileNameNeeded), c)| ==
              |headerInOrder| + (if fileNameNeeded then 1 else 0)
  {
    SplitJoin(headerInOrder, c);
    if fileNameNeeded {
      SplitPrefix("FileName", Join(headerInOrder, [c]), c);
    } else {
      assert HeaderLine(headerInOrder, [c], false) == Join(headerInOrder, [c]);
    }
  }

  /**
   * Delimiter substitution keeps the columns aligned: with a one-character
   * first delimiter and a second delimiter without it, the row of any
   * document splits into the file name and one field per header position.
   */
  lemma SanitizedRowFields(fileName: string, document: seq<Element>, headerInOrder: seq<string>, rd: Rendering)
    requires rd.Valid() && |rd.first| == 1 && rd.second != "" && rd.first[0] !in rd.second
    requires |headerInOrder| >= 1 && rd.first[0] !in fileName
    ensures var cells := Flatten(map[], document, IndexOf(headerInOrder), rd);
            var parts := Split(Row(fileName, cells, |headerInOrder|, rd.first), rd.first[0]);
            |parts| == |headerInOrder| + 1 && parts[0] == fileName &&
            forall i :: 0 <= i < |headerInOrder| ==> parts[i + 1] == (if i in cells then cells[i] else "")
  {
    var cells := Flatten(map[], document, IndexOf(headerInOrder), rd);
    FlattenValuesFree(map[], document, IndexOf(headerInOrder), rd);
    assert rd.first == [rd.first[0]];
    RowFields(fileName, cells, |headerInOrder|, rd.first[0]);
  }
}
