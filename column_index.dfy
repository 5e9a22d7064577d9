/**
 * The column index: each header name, compared ignoring case, maps to the
 * ascending list of header positions that carry it.
 */
module ColumnIndex {
  import opened Text

  /** Folded name to header positions. */
  type Index = map<string, seq<nat>>

  /** The positions of `header` whose name folds to `key`, in ascending order. */
  function Positions(header: seq<string>, key: string): seq<nat>
    decreases |header|
  {
    if header == [] then []
    else
      Positions(header[..|header| - 1], key)
        + (if Fold(header[|header| - 1]) == key then [|header| - 1] else [])
  }

  /** The folded names of the header. */
  function Names(header: seq<string>): set<string>
  {
    set i | 0 <= i < |header| :: Fold(header[i])
  }

  /** The index the header defines: every folded name to its positions. */
  function IndexOf(header: seq<string>): Index
  {
    map k | k in Names(header) :: Positions(header, k)
  }

  /** A position is listed under a key exactly when the header name there folds to the key. */
  lemma {:induction false} PositionsMembership(header: seq<string>, key: string, p: int)
    ensures p in Positions(header, key) <==> 0 <= p < |header| && Fold(header[p]) == key
    decreases |header|
  {
    if header != [] {
      var init := header[..|header| - 1];
      PositionsMembership(init, key, p);
      if p < |init| && 0 <= p {
        assert init[p] == header[p];
      }
    }
  }

  /** Positions are strictly ascending and below the header length. */
  lemma {:induction false} PositionsAscending(header: seq<string>, key: string)
    ensures forall a, b :: 0 <= a < b < |Positions(header, key)| ==>
              Positions(header, key)[a] < Positions(header, key)[b]
    ensures forall a :: 0 <= a < |Positions(header, key)| ==> Positions(header, key)[a] < |header|
    decreases |header|
  {
    if header != [] {
      PositionsAscending(header[..|header| - 1], key);
    }
  }

  /** The index has one entry per folded header name, and every header position sits in its own name's entry. */
  lemma IndexComplete(header: seq<string>)
    ensures IndexOf(header).Keys == Names(header)
    ensures forall i :: 0 <= i < |header| ==>
              Fold(header[i]) in IndexOf(header) && i in IndexOf(header)[Fold(header[i])]
  {
    forall i | 0 <= i < |header|
      ensures Fold(header[i]) in IndexOf(header) && i in IndexOf(header)[Fold(header[i])]
    {
      PositionsMembership(header, Fold(header[i]), i);
    }
  }

  /** An entry lists only header positions whose name folds to its key. */
  lemma IndexSound(header: seq<string>, k: string, i: int)
    requires k in IndexOf(header) && i in IndexOf(header)[k]
    ensures 0 <= i < |header| && Fold(header[i]) == k
  {
    assert IndexOf(header)[k] == Positions(header, k);
    PositionsMembership(header, k, i);
  }

  /** Every entry is strictly ascending, in the header's own order. */
  lemma IndexAscending(header: seq<string>)
    ensures forall k, a, b :: k in IndexOf(header) && 0 <= a < b < |IndexOf(header)[k]| ==>
              IndexOf(header)[k][a] < IndexOf(header)[k][b]
  {
    forall k | k in IndexOf(header)
      ensures forall a, b :: 0 <= a < b < |IndexOf(header)[k]| ==> IndexOf(header)[k][a] < IndexOf(header)[k][b]
    {
      PositionsAscending(header, k);
    }
  }

  /** No position is listed under two different keys. */
  lemma IndexDisjoint(header: seq<string>)
    ensures forall k1, k2, p: int ::
              k1 in IndexOf(header) && k2 in IndexOf(header) && p in IndexOf(header)[k1] && p in IndexOf(header)[k2]
              ==> k1 == k2
  {
    forall k1, k2, p: int |
      k1 in IndexOf(header) && k2 in IndexOf(header) && p in IndexOf(header)[k1] && p in IndexOf(header)[k2]
      ensures k1 == k2
    {
      assert IndexOf(header)[k1] == Positions(header, k1);
      assert IndexOf(header)[k2] == Positions(header, k2);
      PositionsMembership(header, k1, p);
      PositionsMembership(header, k2, p);
    }
  }

  /** Appending one name extends its entry by the new last position, or starts a new entry. */
  lemma IndexOfAppend(header: seq<string>, name: string)
    ensures IndexOf(header + [name]) ==
      (var k := Fold(name);
       if k in IndexOf(header) then IndexOf(header)[k := IndexOf(header)[k] + [|header|]]
       else IndexOf(header)[k := [|header|]])
  {
    var h' := header + [name];
    var k := Fold(name);
    assert h'[..|h'| - 1] == header;
    assert Names(h') == Names(header) + {k} by {
      forall x | x in Names(h') ensures x in Names(header) + {k} {
        var i :| 0 <= i < |h'| && Fold(h'[i]) == x;
        if i < |header| { assert h'[i] == header[i]; }
      }
      forall x | x in Names(header) ensures x in Names(h') {
        var i :| 0 <= i < |header| && Fold(header[i]) == x;
        assert h'[i] == header[i];
      }
      assert h'[|header|] == name;
    }
    if k !in IndexOf(header) {
      assert Positions(header, k) == [] by {
        if Positions(header, k) != [] {
          PositionsMembership(header, k, Positions(header, k)[0]);
        }
      }
    }
    var m := if k in IndexOf(header) then IndexOf(header)[k := IndexOf(header)[k] + [|header|]]
             else IndexOf(header)[k := [|header|]];
    assert IndexOf(h').Keys == m.Keys;
    forall x | x in m ensures IndexOf(h')[x] == m[x] {
      assert Positions(h', x) == Positions(header, x) + (if k == x then [|header|] else []);
    }
    assert IndexOf(h') == m;
  }

  /**
   * The index build loop at the start of a run: for each header position in
   * order, start a new entry for an unseen name or append the position to
   * the entry of a name already seen.
   */
  method BuildIndex(headerInOrder: seq<string>) returns (index: Index)
    ensures index == IndexOf(headerInOrder)
  {
    index := map[];
    var i := 0;
    while i < |headerInOrder|
      invariant 0 <= i <= |headerInOrder|
      invariant index == IndexOf(headerInOrder[..i])
    {
      var key := Fold(headerInOrder[i]);
      IndexOfAppend(headerInOrder[..i], headerInOrder[i]);
      assert headerInOrder[..i + 1] == headerInOrder[..i] + [headerInOrder[i]];
      if key !in index {
        index := index[key := [i]];
      } else {
        index := index[key := index[key] + [i]];
      }
      i := i + 1;
    }
    assert headerInOrder[..i] == headerInOrder;
  }
}
