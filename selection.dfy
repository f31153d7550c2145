/** The selected-rows map of the artwork table and the pure operations over it:
    the checkbox lookup, the manual toggle, the table's merge and the table's selection. */
module Selection {

  /** An artwork is identified by its integer id; its display fields play no part in selection. */
  type Id = int

  /** `selectedRows`: artwork id to its "selected" flag. A key may be present with `false`. */
  type SelectedRows = map<Id, bool>

  predicate Distinct(s: seq<Id>) {
    forall i, j :: 0 <= i < j < |s| ==> s[i] != s[j]
  }

  /** Whether the row with this id is checked. A missing key reads as unchecked. This is both the
      `?? false` lookup of the checkbox renderer and the truthiness test of the bulk selection,
      which agree because every value in the map is a boolean. */
  function IsSelected(m: SelectedRows, id: Id): (r: bool)
    ensures id !in m ==> !r
    ensures id in m ==> (r <==> m[id])
  {
    id in m && m[id]
  }

  /** `{ ...prev, [id]: selected }`: the manual toggle of one row. */
  function Toggle(m: SelectedRows, id: Id, selected: bool): (r: SelectedRows)
    ensures r.Keys == m.Keys + {id}
    ensures r[id] == selected
    ensures forall k :: k in m && k != id ==> r[k] == m[k]
  {
    m[id := selected]
  }

  /** Toggling the same row to the same flag twice is the same as doing it once. */
  lemma ToggleIdempotent(m: SelectedRows, id: Id, selected: bool)
    ensures Toggle(Toggle(m, id, selected), id, selected) == Toggle(m, id, selected)
  {
  }

  /** Unchecking a row deselects exactly that row and leaves every other checked row checked. */
  lemma ToggleOffDeselectsOnlyThatRow(m: SelectedRows, id: Id)
    ensures forall k :: IsSelected(Toggle(m, id, false), k) <==> IsSelected(m, k) && k != id
  {
  }

  /** `{ ...prev, ...change }`: the table's selection-change merge. Every key of `prev` survives;
      on a shared key the change wins. */
  function Merge(prev: SelectedRows, change: SelectedRows): (r: SelectedRows)
    ensures r.Keys == prev.Keys + change.Keys
    ensures forall k :: k in change ==> r[k] == change[k]
    ensures forall k :: k in prev && k !in change ==> r[k] == prev[k]
  {
    prev + change
  }

  /** Merging `{5: true}` into `{3: true}` keeps the earlier entry. */
  lemma MergeKeepsEarlierEntry()
    ensures Merge(map[3 := true], map[5 := true]) == map[3 := true, 5 := true]
  {
  }

  /** `keys` lists the keys of `m`, each once, in the order `Object.keys` returns them. */
  predicate EnumeratesKeys(m: SelectedRows, keys: seq<Id>) {
    && Distinct(keys)
    && (forall k :: k in keys ==> k in m)
    && (forall k :: k in m ==> k in keys)
  }

  /** The `map(find)` then `filter(Boolean)` over a key list: each key that is the id of a loaded
      artwork, in key order. Records are modelled by their ids, so the found record is the key. */
  function Project(keys: seq<Id>, artworks: seq<Id>): (r: seq<Id>)
    ensures forall x :: x in r <==> x in keys && x in artworks
    ensures Distinct(keys) ==> Distinct(r)
    ensures |r| <= |keys|
    decreases |keys|
  {
    if keys == [] then []
    else
      assert forall x :: x in keys <==> x == keys[0] || x in keys[1..];
      (if keys[0] in artworks then [keys[0]] else []) + Project(keys[1..], artworks)
  }

  /** The selection handed to the table: exactly the loaded artworks whose id is a key of the
      map, whatever its flag, each once. */
  function TableSelection(m: SelectedRows, keys: seq<Id>, artworks: seq<Id>): (r: seq<Id>)
    requires EnumeratesKeys(m, keys)
    ensures forall x :: x in r <==> x in m && x in artworks
    ensures Distinct(r)
    ensures |r| <= |m|
  {
    assert |keys| == |m| by { DistinctCardinality(keys); assert (set x | x in keys) == m.Keys; }
    Project(keys, artworks)
  }

  /** A row that was unchecked by hand stays in the table's selection while its key is present. */
  lemma UncheckedRowStaysInTableSelection(m: SelectedRows, id: Id, keys: seq<Id>, artworks: seq<Id>)
    requires EnumeratesKeys(Toggle(m, id, false), keys)
    requires id in artworks
    ensures id in TableSelection(Toggle(m, id, false), keys, artworks)
    ensures !IsSelected(Toggle(m, id, false), id)
  {
  }

  /** The set of elements of a sequence. */
  function Elements(s: seq<Id>): (e: set<Id>)
    ensures forall x :: x in e <==> x in s
  {
    set x | x in s
  }

  /** A sequence without repeats has as many elements as its length. */
  lemma {:induction false} DistinctCardinality(s: seq<Id>)
    requires Distinct(s)
    ensures |Elements(s)| == |s|
  {
    if s != [] {
      var init, x := s[..|s| - 1], s[|s| - 1];
      assert s == init + [x];
      assert Distinct(init);
      assert x !in init;
      assert Elements(s) == Elements(init) + {x};
      DistinctCardinality(init);
    }
  }
}
