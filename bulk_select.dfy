/** The bulk cross-page selection `handleSelectRows`: a budget of rows is spent on the
    not-yet-selected ids of the current page, then of page+1, page+2, ..., fetched one at a
    time, and the copied map is committed in one update only if the budget is used up.

    The remote API is replaced by a finite page source `later`: `later[k]` is the list of ids of
    page `page + 1 + k`, and a request for any page past the end of `later` fails. There is no
    try/catch around the fetch, so a failure skips the commit. */
module BulkSelect {
  import opened Wrappers
  import opened Selection

  /** The state of a walk over rows: the copied map `newSelections` and the budget `remaining`. */
  datatype Walk = Walk(sel: SelectedRows, remaining: int)

  /** What one bulk selection ends in, with the number of pages it requested. */
  datatype Outcome =
    | Committed(selection: SelectedRows, fetches: nat)
    | FetchFailed(fetches: nat)

  /** One `for` loop over a page's ids: stop once the budget is used up, skip an id that is
      already truthy, otherwise mark it `true` and charge one unit. */
  function ScanPage(w: Walk, ids: seq<Id>): (r: Walk)
    ensures w.remaining <= 0 ==> r == w
    ensures w.remaining > 0 ==> 0 <= r.remaining <= w.remaining
    ensures w.remaining - r.remaining <= |ids|
    ensures forall id :: IsSelected(w.sel, id) ==> IsSelected(r.sel, id)
    decreases |ids|
  {
    if ids == [] || w.remaining <= 0 then w
    else if IsSelected(w.sel, ids[0]) then ScanPage(w, ids[1..])
    else ScanPage(Walk(w.sel[ids[0] := true], w.remaining - 1), ids[1..])
  }

  /** The `while (remaining > 0)` loop from its `k`-th fetch on: fetch page `k`, scan it, repeat.
      Only a used-up budget or a failed fetch ends it; a page with no new ids does not. */
  function Continue(w: Walk, later: seq<seq<Id>>, k: nat): (o: Outcome)
    requires k <= |later|
    ensures w.remaining <= 0 ==> o == Committed(w.sel, k)
    ensures o.Committed? ==> k <= o.fetches <= |later|
    ensures o.FetchFailed? ==> o.fetches == |later| + 1
    decreases |later| - k
  {
    if w.remaining <= 0 then Committed(w.sel, k)
    else if k == |later| then FetchFailed(k + 1)
    else Continue(ScanPage(w, later[k]), later, k + 1)
  }

  /** The whole bulk selection from `selected`, with budget `rowsToSelect`, over the loaded
      `artworks` and then the pages of `later`. */
  function Bulk(selected: SelectedRows, rowsToSelect: int, artworks: seq<Id>, later: seq<seq<Id>>): (o: Outcome)
    ensures rowsToSelect <= 0 ==> o == Committed(selected, 0)
    ensures o.Committed? ==> o.fetches <= |later|
    ensures o.FetchFailed? ==> o.fetches == |later| + 1
  {
    Continue(ScanPage(Walk(selected, rowsToSelect), artworks), later, 0)
  }

  /** The request for page `p` against a source whose first page is `page + 1`. */
  function FetchPage(later: seq<seq<Id>>, page: int, p: int): (r: Option<seq<Id>>)
    ensures r.Some? <==> page < p <= page + |later|
    ensures r.Some? ==> r.value == later[p - page - 1]
  {
    if page < p <= page + |later| then Some(later[p - page - 1]) else None
  }

  /** One `for` loop of `handleSelectRows` over the ids of one page, on the copied map. */
  method ScanRows(selected: SelectedRows, remaining: int, ids: seq<Id>)
    returns (newSelections: SelectedRows, left: int)
    ensures Walk(newSelections, left) == ScanPage(Walk(selected, remaining), ids)
  {
    newSelections, left := selected, remaining;
    var i := 0;
    while i < |ids|
      invariant 0 <= i <= |ids|
      invariant ScanPage(Walk(newSelections, left), ids[i..]) == ScanPage(Walk(selected, remaining), ids)
    {
      if left <= 0 {
        break;
      }
      assert ids[i..][1..] == ids[i + 1..];
      if !IsSelected(newSelections, ids[i]) {
        newSelections := newSelections[ids[i] := true];
        left := left - 1;
      }
      i := i + 1;
    }
  }

  // ---------------------------------------------------------------------------------------
  // A reference definition of the result, independent of the walk
  // ---------------------------------------------------------------------------------------

  /** All ids of the pages, in page-then-row order. */
  function Flatten(pages: seq<seq<Id>>): (s: seq<Id>)
    decreases |pages|
  {
    if pages == [] then [] else pages[0] + Flatten(pages[1..])
  }

  /** The ids of `s` that are not truthy in `m`, each at its first occurrence, in order. */
  function Candidates(m: SelectedRows, s: seq<Id>): (c: seq<Id>)
    ensures forall y :: y in c <==> y in s && !IsSelected(m, y)
    ensures Distinct(c)
    ensures |c| <= |s|
    decreases |s|
  {
    if s == [] then []
    else
      var init, x := s[..|s| - 1], s[|s| - 1];
      assert s == init + [x];
      Candidates(m, init) + (if IsSelected(m, x) || x in init then [] else [x])
  }

  /** How many candidates a budget can take: none for a budget of zero or less. */
  function Taken(budget: int, c: seq<Id>): (t: nat)
    ensures t <= |c|
    ensures budget > 0 ==> t <= budget
    ensures 0 < budget <= |c| ==> t == budget
    ensures budget > |c| ==> t == |c|
  {
    if budget <= 0 then 0 else if budget < |c| then budget else |c|
  }

  /** `m` with every id of `ids` set to `true` and every other key as it was. */
  function MarkAll(m: SelectedRows, ids: set<Id>): (r: SelectedRows)
    ensures r.Keys == m.Keys + ids
    ensures forall id :: id in ids ==> r[id]
    ensures forall id :: id in m && id !in ids ==> r[id] == m[id]
  {
    map id | id in m.Keys + ids :: if id in ids then true else m[id]
  }

  /** The ids newly turned from absent or `false` to `true` between two maps. */
  function NewlySelected(before: SelectedRows, after: SelectedRows): set<Id>
  {
    set id | id in after && after[id] && !IsSelected(before, id)
  }

  lemma MarkAllNothing(m: SelectedRows)
    ensures MarkAll(m, {}) == m
  {
    assert MarkAll(m, {}).Keys == m.Keys;
  }

  /** Scanning `a` then `b` is scanning `a + b`: the walk does not care where pages break. */
  lemma {:induction false} ScanPageAppend(w: Walk, a: seq<Id>, b: seq<Id>)
    ensures ScanPage(w, a + b) == ScanPage(ScanPage(w, a), b)
    decreases |a|
  {
    if a == [] {
      assert a + b == b;
    } else if w.remaining > 0 {
      assert (a + b)[0] == a[0];
      assert (a + b)[1..] == a[1..] + b;
      if IsSelected(w.sel, a[0]) {
        ScanPageAppend(w, a[1..], b);
      } else {
        ScanPageAppend(Walk(w.sel[a[0] := true], w.remaining - 1), a[1..], b);
      }
    }
  }

  /** Candidates of a stream extended by one id: that id is added when it is new. */
  lemma CandidatesSnoc(m: SelectedRows, init: seq<Id>, x: Id)
    ensures Candidates(m, init + [x]) ==
            Candidates(m, init) + (if IsSelected(m, x) || x in init then [] else [x])
  {
    var s := init + [x];
    assert s[..|s| - 1] == init;
  }

  lemma MarkAllAdd(m: SelectedRows, ids: set<Id>, x: Id)
    ensures MarkAll(m, ids)[x := true] == MarkAll(m, ids + {x})
  {
  }

  /** One step of the walk on a single id. */
  lemma ScanOne(w: Walk, x: Id)
    ensures ScanPage(w, [x]) ==
            if w.remaining <= 0 || IsSelected(w.sel, x) then w
            else Walk(w.sel[x := true], w.remaining - 1)
  {
    assert [x][1..] == [];
  }

  /** The walk state after the candidates `c` of a stream prefix have been paid for. */
  function AfterCandidates(m: SelectedRows, budget: int, c: seq<Id>): Walk
  {
    Walk(MarkAll(m, Elements(c[..Taken(budget, c)])), budget - Taken(budget, c))
  }

  /** One more id on the stream keeps the walk equal to marking the first candidates. */
  lemma ScanStreamStep(m: SelectedRows, budget: int, init: seq<Id>, x: Id)
    requires budget > 0
    requires ScanPage(Walk(m, budget), init) == AfterCandidates(m, budget, Candidates(m, init))
    ensures ScanPage(Walk(m, budget), init + [x]) == AfterCandidates(m, budget, Candidates(m, init + [x]))
  {
    var c0 := Candidates(m, init);
    ScanPageAppend(Walk(m, budget), init, [x]);
    CandidatesSnoc(m, init, x);
    assert ScanPage(Walk(m, budget), init + [x]) == ScanPage(AfterCandidates(m, budget, c0), [x]);
    if IsSelected(m, x) || x in init {
      assert c0 + [] == c0;
      assert IsSelected(m, x) || x in c0;
      StepNothingNew(m, budget, c0, x);
    } else {
      StepNewCandidate(m, budget, c0, x);
    }
  }

  /** An id that is not a new candidate leaves the walk as it was. */
  lemma StepNothingNew(m: SelectedRows, budget: int, c0: seq<Id>, x: Id)
    requires 0 < budget
    requires IsSelected(m, x) || x in c0
    ensures ScanPage(AfterCandidates(m, budget, c0), [x]) == AfterCandidates(m, budget, c0)
  {
    var w1 := AfterCandidates(m, budget, c0);
    ScanOne(w1, x);
    if Taken(budget, c0) < budget {
      assert c0[..Taken(budget, c0)] == c0;
      assert IsSelected(w1.sel, x);
    }
  }

  /** A new candidate is marked while budget is left, and is ignored once it is spent. */
  lemma StepNewCandidate(m: SelectedRows, budget: int, c0: seq<Id>, x: Id)
    requires 0 < budget
    requires x !in c0 && !IsSelected(m, x)
    ensures ScanPage(AfterCandidates(m, budget, c0), [x]) == AfterCandidates(m, budget, c0 + [x])
  {
    var w1 := AfterCandidates(m, budget, c0);
    var c := c0 + [x];
    ScanOne(w1, x);
    if Taken(budget, c0) == budget {
      assert c[..budget] == c0[..budget];
    } else {
      assert c0[..Taken(budget, c0)] == c0;
      assert c[..Taken(budget, c)] == c;
      assert Elements(c) == Elements(c0) + {x};
      assert !IsSelected(w1.sel, x);
      MarkAllAdd(m, Elements(c0), x);
    }
  }

  /** A walk over a stream marks exactly the first candidates that its budget can pay for,
      and keeps what it did not spend. */
  lemma {:induction false} ScanStream(m: SelectedRows, budget: int, s: seq<Id>)
    ensures ScanPage(Walk(m, budget), s) == AfterCandidates(m, budget, Candidates(m, s))
    decreases |s|
  {
    var c := Candidates(m, s);
    if budget <= 0 || s == [] {
      assert Elements(c[..Taken(budget, c)]) == {};
      MarkAllNothing(m);
    } else {
      var init, x := s[..|s| - 1], s[|s| - 1];
      assert s == init + [x];
      ScanStream(m, budget, init);
      ScanStreamStep(m, budget, init, x);
    }
  }

  /** The fetch loop from page `k` on behaves as one walk over the pages from `k` on: it commits
      exactly when that walk uses up the budget, and then commits that walk's map. */
  lemma {:induction false} ContinueScansStream(w: Walk, later: seq<seq<Id>>, k: nat)
    requires k <= |later|
    ensures var v := ScanPage(w, Flatten(later[k..]));
            && (Continue(w, later, k).Committed? <==> v.remaining <= 0)
            && (Continue(w, later, k).Committed? ==> Continue(w, later, k).selection == v.sel)
    decreases |later| - k
  {
    if w.remaining > 0 {
      if k == |later| {
        assert later[k..] == [];
      } else {
        assert later[k..][1..] == later[k + 1..];
        ScanPageAppend(w, later[k], Flatten(later[k + 1..]));
        ContinueScansStream(ScanPage(w, later[k]), later, k + 1);
      }
    }
  }

  /** The budget actually asked for: `rowsToSelect`, or nothing when it is zero or less. */
  function Budget(rowsToSelect: int): (b: nat)
    ensures rowsToSelect > 0 ==> b == rowsToSelect
    ensures rowsToSelect <= 0 ==> b == 0
  {
    if rowsToSelect <= 0 then 0 else rowsToSelect
  }

  /** The main theorem. Let `c` be the ids of the current page and then of the later pages, in
      that order, that are not yet truthy, each at its first occurrence. Bulk selection commits
      exactly when `c` has at least the budget, and the committed map is `selected` with the
      first budget-many ids of `c` set to `true`. */
  lemma BulkSelectsFirstCandidates(selected: SelectedRows, rowsToSelect: int, artworks: seq<Id>,
                                    later: seq<seq<Id>>)
    ensures var c := Candidates(selected, artworks + Flatten(later));
            var o := Bulk(selected, rowsToSelect, artworks, later);
            && (o.Committed? <==> Budget(rowsToSelect) <= |c|)
            && (o.Committed? ==> o.selection == MarkAll(selected, Elements(c[..Budget(rowsToSelect)])))
  {
    var w := Walk(selected, rowsToSelect);
    ScanPageAppend(w, artworks, Flatten(later));
    assert later[0..] == later;
    ContinueScansStream(ScanPage(w, artworks), later, 0);
    ScanStream(selected, rowsToSelect, artworks + Flatten(later));
  }

  /** Bulk selection never turns a truthy key falsy: every key keeps its value unless it was
      absent or `false` and is now `true`, and a key outside every page keeps its value. */
  lemma BulkNeverDeselects(selected: SelectedRows, rowsToSelect: int, artworks: seq<Id>,
                           later: seq<seq<Id>>)
    requires Bulk(selected, rowsToSelect, artworks, later).Committed?
    ensures var r := Bulk(selected, rowsToSelect, artworks, later).selection;
            && selected.Keys <= r.Keys
            && (forall id :: IsSelected(selected, id) ==> IsSelected(r, id))
            && (forall id :: id in r ==>
                  (id in selected && r[id] == selected[id]) || (r[id] && !IsSelected(selected, id)))
            && (forall id :: id !in artworks + Flatten(later) ==>
                  (id in r <==> id in selected) && (id in selected ==> r[id] == selected[id]))
  {
    BulkSelectsFirstCandidates(selected, rowsToSelect, artworks, later);
  }

  /** A committed bulk selection turns exactly `rowsToSelect` ids (none for a budget of zero or
      less) from absent or `false` to `true`: the first ones in page-then-row order. */
  lemma BulkSelectsExactlyBudget(selected: SelectedRows, rowsToSelect: int, artworks: seq<Id>,
                                 later: seq<seq<Id>>)
    requires Bulk(selected, rowsToSelect, artworks, later).Committed?
    ensures Budget(rowsToSelect) <= |Candidates(selected, artworks + Flatten(later))|
    ensures var c := Candidates(selected, artworks + Flatten(later));
            var r := Bulk(selected, rowsToSelect, artworks, later).selection;
            && NewlySelected(selected, r) == Elements(c[..Budget(rowsToSelect)])
            && |NewlySelected(selected, r)| == Budget(rowsToSelect)
  {
    BulkSelectsFirstCandidates(selected, rowsToSelect, artworks, later);
    var c := Candidates(selected, artworks + Flatten(later));
    var prefix := c[..Budget(rowsToSelect)];
    assert Distinct(prefix);
    DistinctCardinality(prefix);
  }

  /** A bulk selection fails, fetching every later page and one more, exactly when fewer ids
      than the budget are left to select. */
  lemma BulkFailsWhenShort(selected: SelectedRows, rowsToSelect: int, artworks: seq<Id>,
                           later: seq<seq<Id>>)
    ensures var o := Bulk(selected, rowsToSelect, artworks, later);
            && (o.FetchFailed? <==> |Candidates(selected, artworks + Flatten(later))| < rowsToSelect)
            && (o.FetchFailed? ==> o.fetches == |later| + 1)
  {
    BulkSelectsFirstCandidates(selected, rowsToSelect, artworks, later);
  }

  /** A budget of zero or less leaves the map as it was and fetches no page. */
  lemma BulkZeroIsNoOp(selected: SelectedRows, rowsToSelect: int, artworks: seq<Id>,
                       later: seq<seq<Id>>)
    requires rowsToSelect <= 0
    ensures Bulk(selected, rowsToSelect, artworks, later) == Committed(selected, 0)
  {
  }

  /** One row of the walk: an id already `true` costs no budget and changes nothing, while an id
      absent or mapped to `false` is marked and costs one unit as long as budget is left. */
  lemma SelectedIdCostsNothing(w: Walk, id: Id, rest: seq<Id>)
    ensures IsSelected(w.sel, id) ==> ScanPage(w, [id] + rest) == ScanPage(w, rest)
    ensures !IsSelected(w.sel, id) && w.remaining > 0 ==>
            ScanPage(w, [id] + rest) == ScanPage(Walk(w.sel[id := true], w.remaining - 1), rest)
    ensures w.remaining <= 0 ==> ScanPage(w, [id] + rest) == w
  {
    assert ([id] + rest)[1..] == rest;
  }

  /** Ids already `true` are never chosen, repeated ids are chosen once, and ids mapped to
      `false` are chosen like absent ones. */
  lemma BulkSkipsSelectedIds(selected: SelectedRows, rowsToSelect: int, artworks: seq<Id>,
                             later: seq<seq<Id>>, id: Id)
    requires id in artworks + Flatten(later)
    ensures var c := Candidates(selected, artworks + Flatten(later));
            && (IsSelected(selected, id) ==> id !in c)
            && (id in selected && !selected[id] ==> id in c)
            && Distinct(c)
  {
  }

  /** When the current page alone has enough new ids, no page is fetched. */
  lemma BulkStaysOnCurrentPage(selected: SelectedRows, rowsToSelect: int, artworks: seq<Id>,
                               later: seq<seq<Id>>)
    requires Budget(rowsToSelect) <= |Candidates(selected, artworks)|
    ensures Bulk(selected, rowsToSelect, artworks, later).fetches == 0
    ensures Bulk(selected, rowsToSelect, artworks, later).Committed?
  {
    ScanStream(selected, rowsToSelect, artworks);
  }

  /** Two three-row pages with a budget of four: the three ids of the current page and the first
      id of the next one; with no next page, the fetch fails and nothing is committed. */
  lemma SpansTwoPages()
    ensures Bulk(map[], 4, [1, 2, 3], [[4, 5, 6]]) ==
            Committed(map[1 := true, 2 := true, 3 := true, 4 := true], 1)
    ensures Bulk(map[], 4, [1, 2, 3], []) == FetchFailed(1)
  {
  }
}
