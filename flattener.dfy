/**
 * The recursive flattener: it walks a document's elements in order,
 * descends into document-valued elements before rendering them, and writes
 * each rendered value at every header position its name maps to, in a
 * position-keyed buffer shared by the whole walk.
 */
module Flattener {
  import opened Text
  import opened Bson
  import opened ColumnIndex

  /** The position-keyed buffer of one row (a sorted dictionary from position to text). */
  class RowBuffer {
    var cells: map<nat, string>

    constructor ()
      ensures cells == map[]
    {
      cells := map[];
    }
  }

  /**
   * How values are rendered: the counts-only mode, the first delimiter and
   * the optional second delimiter ("" when none was given), and the
   * library's default rendering of a value.
   */
  datatype Rendering = Rendering(countsOnly: bool, first: string, second: string, toText: Node -> string)
  {
    predicate Valid() { |first| > 0 }
  }

  // ---------------------------------------------------------------------
  // Rendering one value
  // ---------------------------------------------------------------------

  /**
   * The text of a value: its default rendering, except that in counts-only
   * mode a document (the one kind of value that enumerates named elements)
   * becomes the decimal count of its elements. Arrays are not counted.
   */
  function RenderValue(v: Node, countsOnly: bool, toText: Node -> string): (r: string)
    ensures countsOnly && v.Document? ==>
              |r| >= 1 && (forall i :: 0 <= i < |r| ==> IsDigit(r[i])) && DecimalValue(r) == |v.elements|
    ensures countsOnly && v.Document? ==> (r[0] == '0' ==> |v.elements| == 0)
    ensures !(countsOnly && v.Document?) ==> r == toText(v)
  {
    if countsOnly && v.Document? then
      NatToStringValue(|v.elements|);
      NatToString(|v.elements|)
    else toText(v)
  }

  /**
   * Delimiter substitution: with a second delimiter, every non-overlapping
   * occurrence of the first one in the value is replaced by it; without
   * one, the value is kept as it is.
   */
  function Sanitize(value: string, first: string, second: string): (r: string)
    requires |first| > 0
    ensures second == "" ==> r == value
    ensures second != "" && (forall i: nat :: !OccursAt(value, first, i)) ==> r == value
    ensures second != "" && |first| == 1 && first[0] !in second ==> first[0] !in r
  {
    if second == "" then value
    else
      ReplaceFacts(value, first, second);
      Replace(value, first, second)
  }

  lemma ReplaceFacts(value: string, first: string, second: string)
    requires |first| > 0
    ensures (forall i: nat :: !OccursAt(value, first, i)) ==> Replace(value, first, second) == value
    ensures |first| == 1 && first[0] !in second ==> first[0] !in Replace(value, first, second)
  {
    if |first| == 1 && first[0] !in second {
      assert first == [first[0]];
      ReplaceRemovesChar(value, first[0], second);
    }
    if forall i: nat :: !OccursAt(value, first, i) {
      ReplaceAbsent(value, first, second);
    }
  }

  /** The text written for an element. */
  function ElementValue(e: Element, rd: Rendering): string
    requires rd.Valid()
  {
    Sanitize(RenderValue(e.value, rd.countsOnly, rd.toText), rd.first, rd.second)
  }

  // ---------------------------------------------------------------------
  // The walk as functions
  // ---------------------------------------------------------------------

  /** Writing one value at each listed position, in list order. */
  function Write(cells: map<nat, string>, positions: seq<nat>, value: string): map<nat, string>
    decreases |positions|
  {
    if positions == [] then cells
    else Write(cells, positions[..|positions| - 1], value)[positions[|positions| - 1] := value]
  }

  /** The buffer after visiting the elements of a document in order. */
  function Flatten(cells: map<nat, string>, elements: seq<Element>, index: Index, rd: Rendering): map<nat, string>
    requires rd.Valid()
    decreases elements
  {
    if elements == [] then cells
    else Visit(Flatten(cells, elements[..|elements| - 1], index, rd), elements[|elements| - 1], index, rd)
  }

  /**
   * The buffer after visiting one element: a nested document is walked
   * first, then the element's own value goes to every position its name
   * maps to.
   */
  function Visit(cells: map<nat, string>, e: Element, index: Index, rd: Rendering): map<nat, string>
    requires rd.Valid()
    decreases e
  {
    var inner := if e.value.Document? then Flatten(cells, e.value.elements, index, rd) else cells;
    var key := Fold(e.name);
    if key in index then Write(inner, index[key], ElementValue(e, rd)) else inner
  }

  // ---------------------------------------------------------------------
  // The walk as the converter runs it
  // ---------------------------------------------------------------------

  /**
   * The recursive walk, updating the shared buffer in place: for each
   * element, descend into a nested document, render the value, substitute
   * the delimiter, and store the value at every mapped position.
   */
  method Recurse(document: seq<Element>, headerToIndexesMap: Index, sd: RowBuffer,
                 first: string, second: string, countsOnly: bool, toText: Node -> string)
    requires |first| > 0
    modifies sd
    ensures sd.cells == Flatten(old(sd.cells), document, headerToIndexesMap, Rendering(countsOnly, first, second, toText))
    decreases document
  {
    ghost var rd := Rendering(countsOnly, first, second, toText);
    var k := 0;
    while k < |document|
      invariant 0 <= k <= |document|
      invariant sd.cells == Flatten(old(sd.cells), document[..k], headerToIndexesMap, rd)
    {
      var element := document[k];
      assert document[..k + 1][..k] == document[..k];
      if element.value.Document? {
        Recurse(element.value.elements, headerToIndexesMap, sd, first, second, countsOnly, toText);
      }
      var value := toText(element.value);
      if countsOnly && element.value.Document? {
        value := NatToString(|element.value.elements|);
      }
      if second != "" {
        value := Replace(value, first, second);
      }
      var key := Fold(element.name);
      if key in headerToIndexesMap {
        var temp := headerToIndexesMap[key];
        ghost var inner := sd.cells;
        var j := 0;
        while j < |temp|
          invariant 0 <= j <= |temp|
          invariant sd.cells == Write(inner, temp[..j], value)
        {
          assert temp[..j + 1][..j] == temp[..j];
          sd.cells := sd.cells[temp[j] := value];
          j := j + 1;
        }
        assert temp[..j] == temp;
      }
      k := k + 1;
    }
    assert document[..k] == document;
  }

  // ---------------------------------------------------------------------
  // What the walk writes
  // ---------------------------------------------------------------------

  /** Writing a list of positions sets exactly those positions to the value. */
  lemma {:induction false} WriteEffect(cells: map<nat, string>, positions: seq<nat>, value: string)
    ensures Write(cells, positions, value).Keys == cells.Keys + set p | p in positions
    ensures forall p :: p in positions ==> Write(cells, positions, value)[p] == value
    ensures forall p :: p in cells && p !in positions ==> Write(cells, positions, value)[p] == cells[p]
    decreases |positions|
  {
    if positions != [] {
      var init := positions[..|positions| - 1];
      WriteEffect(cells, init, value);
      assert positions == init + [positions[|positions| - 1]];
    }
  }

  /** The folded names of every element the walk visits; array contents are not visited. */
  function VisitedNames(elements: seq<Element>): set<string>
    decreases elements
  {
    if elements == [] then {}
    else VisitedNames(elements[..|elements| - 1]) + ElementNames(elements[|elements| - 1])
  }

  function ElementNames(e: Element): set<string>
    decreases e
  {
    {Fold(e.name)} + (if e.value.Document? then VisitedNames(e.value.elements) else {})
  }

  /** The positions the index maps some of the given names to. */
  function MappedPositions(index: Index, names: set<string>): set<nat>
  {
    set k, p | k in names && k in index && p in index[k] :: p
  }

  lemma MappedPositionsUnion(index: Index, a: set<string>, b: set<string>)
    ensures MappedPositions(index, a + b) == MappedPositions(index, a) + MappedPositions(index, b)
  {
  }

  /**
   * The walk writes exactly the positions mapped from the names it visits,
   * and leaves every other position as it was.
   */
  lemma {:induction false} FlattenFrame(cells: map<nat, string>, elements: seq<Element>, index: Index, rd: Rendering)
    requires rd.Valid()
    ensures Flatten(cells, elements, index, rd).Keys == cells.Keys + MappedPositions(index, VisitedNames(elements))
    ensures forall p :: p in cells && p !in MappedPositions(index, VisitedNames(elements)) ==>
              Flatten(cells, elements, index, rd)[p] == cells[p]
    decreases elements
  {
    if elements != [] {
      var init := elements[..|elements| - 1];
      var last := elements[|elements| - 1];
      FlattenFrame(cells, init, index, rd);
      VisitFrame(Flatten(cells, init, index, rd), last, index, rd);
      MappedPositionsUnion(index, VisitedNames(init), ElementNames(last));
    }
  }

  lemma {:induction false} VisitFrame(cells: map<nat, string>, e: Element, index: Index, rd: Rendering)
    requires rd.Valid()
    ensures Visit(cells, e, index, rd).Keys == cells.Keys + MappedPositions(index, ElementNames(e))
    ensures forall p :: p in cells && p !in MappedPositions(index, ElementNames(e)) ==>
              Visit(cells, e, index, rd)[p] == cells[p]
    decreases e
  {
    var key := Fold(e.name);
    var children := if e.value.Document? then VisitedNames(e.value.elements) else {};
    var inner := if e.value.Document? then Flatten(cells, e.value.elements, index, rd) else cells;
    if e.value.Document? {
      FlattenFrame(cells, e.value.elements, index, rd);
    }
    MappedPositionsUnion(index, {key}, children);
    if key in index {
      WriteEffect(inner, index[key], ElementValue(e, rd));
      assert MappedPositions(index, {key}) == set p | p in index[key];
    } else {
      assert MappedPositions(index, {key}) == {};
    }
  }

  /**
   * Only header positions are written: starting from an empty buffer, every
   * position the walk fills is below the number of header names.
   */
  lemma OnlyHeaderPositionsWritten(header: seq<string>, elements: seq<Element>, rd: Rendering)
    requires rd.Valid()
    ensures forall p :: p in Flatten(map[], elements, IndexOf(header), rd) ==> p < |header|
  {
    var index := IndexOf(header);
    FlattenFrame(map[], elements, index, rd);
    forall p | p in Flatten(map[], elements, index, rd) ensures p < |header| {
      assert p in MappedPositions(index, VisitedNames(elements));
      var k :| k in VisitedNames(elements) && k in index && p in index[k];
      assert index[k] == Positions(header, k);
      PositionsMembership(header, k, p);
    }
  }

  // ---------------------------------------------------------------------
  // Broadcast to duplicate header names
  // ---------------------------------------------------------------------

  /** No position is listed under two keys. */
  ghost predicate Disjoint(index: Index)
  {
    forall k1, k2, p: int :: k1 in index && k2 in index && p in index[k1] && p in index[k2] ==> k1 == k2
  }

  /** All positions under one key are filled together and hold the same text. */
  ghost predicate Uniform(cells: map<nat, string>, index: Index)
  {
    forall k, p: int, q: int :: k in index && p in index[k] && q in index[k] ==>
      (p in cells <==> q in cells) && (p in cells && q in cells ==> cells[p] == cells[q])
  }

  lemma WriteUniform(cells: map<nat, string>, index: Index, key: string, value: string)
    requires Disjoint(index) && Uniform(cells, index) && key in index
    ensures Uniform(Write(cells, index[key], value), index)
  {
    var r := Write(cells, index[key], value);
    WriteEffect(cells, index[key], value);
    forall k, p: int, q: int | k in index && p in index[k] && q in index[k]
      ensures (p in r <==> q in r) && (p in r && q in r ==> r[p] == r[q])
    {
      if k != key {
        assert p !in index[key] && q !in index[key];
      }
    }
  }

  /**
   * Broadcast: if every key's positions agree before the walk, they agree
   * after it, because each visited element writes one value to all the
   * positions of its name.
   */
  lemma {:induction false} FlattenUniform(cells: map<nat, string>, elements: seq<Element>, index: Index, rd: Rendering)
    requires rd.Valid() && Disjoint(index) && Uniform(cells, index)
    ensures Uniform(Flatten(cells, elements, index, rd), index)
    decreases elements
  {
    if elements != [] {
      var init := elements[..|elements| - 1];
      FlattenUniform(cells, init, index, rd);
      VisitUniform(Flatten(cells, init, index, rd), elements[|elements| - 1], index, rd);
    }
  }

  lemma {:induction false} VisitUniform(cells: map<nat, string>, e: Element, index: Index, rd: Rendering)
    requires rd.Valid() && Disjoint(index) && Uniform(cells, index)
    ensures Uniform(Visit(cells, e, index, rd), index)
    decreases e
  {
    var inner := if e.value.Document? then Flatten(cells, e.value.elements, index, rd) else cells;
    if e.value.Document? {
      FlattenUniform(cells, e.value.elements, index, rd);
    }
    if Fold(e.name) in index {
      WriteUniform(inner, index, Fold(e.name), ElementValue(e, rd));
    }
  }

  /**
   * In the row of a document, two header positions whose names are equal
   * ignoring case are both filled or both empty, and hold the same text.
   */
  lemma RowBroadcast(header: seq<string>, elements: seq<Element>, rd: Rendering, i: nat, j: nat)
    requires rd.Valid()
    requires i < |header| && j < |header| && Fold(header[i]) == Fold(header[j])
    ensures var cells := Flatten(map[], elements, IndexOf(header), rd);
            (i in cells <==> j in cells) && (i in cells ==> cells[i] == cells[j])
  {
    var index := IndexOf(header);
    IndexDisjoint(header);
    IndexComplete(header);
    FlattenUniform(map[], elements, index, rd);
    var k := Fold(header[i]);
    assert k in index && i in index[k] && j in index[k];
  }

  // ---------------------------------------------------------------------
  // Last writer wins
  // ---------------------------------------------------------------------

  /**
   * An element's own value is written after the walk of its nested
   * document, so it overrides any equally named inner element.
   */
  lemma OuterOverridesInner(cells: map<nat, string>, e: Element, index: Index, rd: Rendering)
    requires rd.Valid() && Fold(e.name) in index
    ensures forall p :: p in index[Fold(e.name)] ==>
              p in Visit(cells, e, index, rd) && Visit(cells, e, index, rd)[p] == ElementValue(e, rd)
  {
    var inner := if e.value.Document? then Flatten(cells, e.value.elements, index, rd) else cells;
    WriteEffect(inner, index[Fold(e.name)], ElementValue(e, rd));
  }

  /** Walking two runs of elements one after the other is walking their concatenation. */
  lemma {:induction false} FlattenAppend(cells: map<nat, string>, a: seq<Element>, b: seq<Element>, index: Index, rd: Rendering)
    requires rd.Valid()
    ensures Flatten(cells, a + b, index, rd) == Flatten(Flatten(cells, a, index, rd), b, index, rd)
    decreases |b|
  {
    if b == [] {
      assert a + b == a;
    } else {
      var init := b[..|b| - 1];
      FlattenAppend(cells, a, init, index, rd);
      assert (a + b)[..|a + b| - 1] == a + init;
      assert (a + b)[|a + b| - 1] == b[|b| - 1];
    }
  }

  /**
   * Among siblings the later one wins: a position written by an element
   * keeps its value unless a later sibling (or something nested in one)
   * writes it again.
   */
  lemma LaterSiblingWins(cells: map<nat, string>, before: seq<Element>, e: Element, after: seq<Element>,
                         index: Index, rd: Rendering, p: nat)
    requires rd.Valid() && Fold(e.name) in index && p in index[Fold(e.name)]
    requires p !in MappedPositions(index, VisitedNames(after))
    ensures p in Flatten(cells, before + [e] + after, index, rd)
    ensures Flatten(cells, before + [e] + after, index, rd)[p] == ElementValue(e, rd)
  {
    var mid := Flatten(cells, before + [e], index, rd);
    FlattenAppend(cells, before + [e], after, index, rd);
    assert (before + [e])[..|before + [e]| - 1] == before;
    OuterOverridesInner(Flatten(cells, before, index, rd), e, index, rd);
    VisitFrame(Flatten(cells, before, index, rd), e, index, rd);
    FlattenFrame(mid, after, index, rd);
  }

  // ---------------------------------------------------------------------
  // Delimiter substitution reaches every written value
  // ---------------------------------------------------------------------

  /** No value of the buffer contains the character. */
  ghost predicate ValuesFree(cells: map<nat, string>, c: char)
  {
    forall p :: p in cells ==> c !in cells[p]
  }

  /**
   * With a one-character first delimiter and a second delimiter that does
   * not contain it, no value the walk writes contains the first delimiter.
   */
  lemma {:induction false} FlattenValuesFree(cells: map<nat, string>, elements: seq<Element>, index: Index, rd: Rendering)
    requires rd.Valid() && |rd.first| == 1 && rd.second != "" && rd.first[0] !in rd.second
    requires ValuesFree(cells, rd.first[0])
    ensures ValuesFree(Flatten(cells, elements, index, rd), rd.first[0])
    decreases elements
  {
    if elements != [] {
      var init := elements[..|elements| - 1];
      FlattenValuesFree(cells, init, index, rd);
      VisitValuesFree(Flatten(cells, init, index, rd), elements[|elements| - 1], index, rd);
    }
  }

  lemma {:induction false} VisitValuesFree(cells: map<nat, string>, e: Element, index: Index, rd: Rendering)
    requires rd.Valid() && |rd.first| == 1 && rd.second != "" && rd.first[0] !in rd.second
    requires ValuesFree(cells, rd.first[0])
    ensures ValuesFree(Visit(cells, e, index, rd), rd.first[0])
    decreases e
  {
    var inner := if e.value.Document? then Flatten(cells, e.value.elements, index, rd) else cells;
    if e.value.Document? {
      FlattenValuesFree(cells, e.value.elements, index, rd);
    }
    if Fold(e.name) in index {
      WriteEffect(inner, index[Fold(e.name)], ElementValue(e, rd));
    }
  }

  // ---------------------------------------------------------------------
  // Worked examples
  // ---------------------------------------------------------------------

  /**
   * Header `a,b` and the document {"a": {"b": 1}}: position 1 receives the
   * inner value of `b` and position 0 the rendering of the whole nested
   * document, each captured independently.
   */
  lemma NestedDocumentExample(toText: Node -> string)
    ensures var inner := Document([Element("b", Scalar("1"))]);
            var rd := Rendering(false, ",", "", toText);
            Flatten(map[], [Element("a", inner)], IndexOf(["a", "b"]), rd)
              == map[0 := toText(inner), 1 := toText(Scalar("1"))]
  {
    var inner := Document([Element("b", Scalar("1"))]);
    var rd := Rendering(false, ",", "", toText);
    var index := IndexOf(["a", "b"]);
    assert Fold("a") == "A" && Fold("b") == "B";
    assert Names([]) == {};
    IndexOfAppend([], "a");
    assert [] + ["a"] == ["a"];
    IndexOfAppend(["a"], "b");
    assert ["a"] + ["b"] == ["a", "b"];
    assert index == map["A" := [0], "B" := [1]];
    var e := Element("a", inner);
    assert [e][..0] == [];
    assert [Element("b", Scalar("1"))][..0] == [];
    assert Flatten(map[], inner.elements, index, rd) == map[1 := toText(Scalar("1"))];
  }

  /** Documents inside arrays are never visited: their names write nothing. */
  lemma ArrayContentsNotVisited(toText: Node -> string)
    ensures var list := Array([Document([Element("b", Scalar("1"))])]);
            Flatten(map[], [Element("list", list)], IndexOf(["b"]), Rendering(false, ",", "", toText)) == map[]
  {
    var index := IndexOf(["b"]);
    assert Fold("b") == "B" && Fold("list") == "LIST";
    assert Names([]) == {};
    IndexOfAppend([], "b");
    assert [] + ["b"] == ["b"];
    assert index == map["B" := [0]];
    var list := Array([Document([Element("b", Scalar("1"))])]);
    assert [Element("list", list)][..0] == [];
  }
}
