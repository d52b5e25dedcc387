/** The bounded walk up the `broader` links of the English table. */
module Hierarchy {
  import opened Results
  import opened Json
  import opened Dicts
  import opened EnglishTable

  /** The number of steps the walk takes at most. */
  const MaxDepth: nat := 20

  /** A value at which the walk ends without failing: one that is falsy, or
      that names no table entry (a dictionary `get` of a non-string is `None`). */
  predicate Stops(table: Dict<Concept>, v: Json) {
    !Truthy(v) || (!v.Arr? && !v.Obj? && (!v.Str? || v.s !in table.entries))
  }

  /** Reference definition of the walk: the ids visited from `cur` within
      `steps` steps, in visiting order. A truthy list or object as an id is
      unhashable and makes the dictionary lookup raise. */
  function Walk(table: Dict<Concept>, cur: Json, steps: nat): Result<seq<string>, Fault>
    decreases steps
  {
    if steps == 0 || Stops(table, cur) then Ok([])
    else if cur.Arr? || cur.Obj? then Err(Crash)
    else
      var rest :- Walk(table, table.entries[cur.s].broader, steps - 1);
      Ok([cur.s] + rest)
  }

  function Elements(ids: seq<string>): set<string> {
    set x | x in ids
  }

  /** `get_parent_hierarchy(concept_id)` (lines 128-142) as a value. */
  function HierarchyOf(table: Dict<Concept>, start: string): Result<set<string>, Fault> {
    var ids :- Walk(table, Str(start), MaxDepth);
    Ok(Elements(ids))
  }

  /** `visited` followed by the rest of a walk. */
  function Prefixed(visited: seq<string>, rest: Result<seq<string>, Fault>): Result<seq<string>, Fault> {
    if rest.Err? then rest else Ok(visited + rest.value)
  }

  method GetParentHierarchy(table: Dict<Concept>, start: string) returns (r: Result<set<string>, Fault>)
    ensures r == HierarchyOf(table, start)
  {
    var hierarchy: set<string> := {};
    ghost var visited: seq<string> := [];
    var current := Str(start);
    var i := 0;
    assert Walk(table, current, MaxDepth).Ok? ==> [] + Walk(table, current, MaxDepth).value == Walk(table, current, MaxDepth).value;
    while i < MaxDepth
      invariant 0 <= i <= MaxDepth
      invariant Walk(table, Str(start), MaxDepth) == Prefixed(visited, Walk(table, current, MaxDepth - i))
      invariant hierarchy == Elements(visited)
    {
      WalkStep(table, current, MaxDepth - i);
      if !Truthy(current) {
        break;
      }
      if current.Arr? || current.Obj? {
        return Err(Crash);
      }
      if !current.Str? {
        break;
      }
      var concept := Get(table, current.s);
      if concept.None? {
        break;
      }
      PrefixedStep(visited, current.s, Walk(table, concept.value.broader, MaxDepth - i - 1));
      hierarchy := hierarchy + {current.s};
      visited := visited + [current.s];
      current := concept.value.broader;
      i := i + 1;
    }
    WalkStep(table, current, MaxDepth - i);
    assert visited + [] == visited;
    return Ok(hierarchy);
  }

  /** One step of the walk. */
  lemma WalkStep(table: Dict<Concept>, cur: Json, steps: nat)
    ensures steps == 0 || Stops(table, cur) ==> Walk(table, cur, steps) == Ok([])
    ensures steps > 0 && !Stops(table, cur) && (cur.Arr? || cur.Obj?) ==> Walk(table, cur, steps) == Err(Crash)
    ensures steps > 0 && !Stops(table, cur) && !cur.Arr? && !cur.Obj? ==>
      cur.Str? && cur.s in table.entries
      && Walk(table, cur, steps) == Prefixed([cur.s], Walk(table, table.entries[cur.s].broader, steps - 1))
  { }

  /** Visiting one more id before the rest of a walk. */
  lemma PrefixedStep(visited: seq<string>, id: string, rest: Result<seq<string>, Fault>)
    ensures Prefixed(visited, Prefixed([id], rest)) == Prefixed(visited + [id], rest)
  {
    if rest.Ok? {
      assert visited + ([id] + rest.value) == (visited + [id]) + rest.value;
    }
  }

  /** A walk visits at most `steps` ids. */
  lemma {:induction false} WalkBound(table: Dict<Concept>, cur: Json, steps: nat)
    ensures Walk(table, cur, steps).Ok? ==> |Walk(table, cur, steps).value| <= steps
    decreases steps
  {
    if steps > 0 && !Stops(table, cur) && cur.Str? {
      WalkBound(table, table.entries[cur.s].broader, steps - 1);
    }
  }

  /** Every visited id is a table key, the first one is `cur` and each next one
      is the `broader` of the one before. */
  lemma {:induction false} WalkFollows(table: Dict<Concept>, cur: Json, steps: nat)
    ensures Walk(table, cur, steps).Ok? ==> var w := Walk(table, cur, steps).value;
      && (forall j :: 0 <= j < |w| ==> w[j] in table.entries)
      && (w != [] ==> cur == Str(w[0]))
      && (forall j :: 0 <= j < |w| - 1 ==> table.entries[w[j]].broader == Str(w[j + 1]))
    decreases steps
  {
    if steps > 0 && !Stops(table, cur) && cur.Str? {
      var next := table.entries[cur.s].broader;
      WalkFollows(table, next, steps - 1);
      if Walk(table, next, steps - 1).Ok? {
        var rest := Walk(table, next, steps - 1).value;
        var w := [cur.s] + rest;
        assert forall j :: 1 <= j < |w| ==> w[j] == rest[j - 1];
      }
    }
  }

  /** A walk that ends early ends at a value where the walk stops: a falsy
      `broader`, or one naming no entry. */
  lemma {:induction false} WalkStops(table: Dict<Concept>, cur: Json, steps: nat)
    ensures Walk(table, cur, steps).Ok? && |Walk(table, cur, steps).value| < steps ==>
      var w := Walk(table, cur, steps).value;
      if w == [] then Stops(table, cur)
      else w[|w| - 1] in table.entries && Stops(table, table.entries[w[|w| - 1]].broader)
    decreases steps
  {
    if steps > 0 && !Stops(table, cur) && cur.Str? {
      var next := table.entries[cur.s].broader;
      WalkStops(table, next, steps - 1);
    }
  }

  /** A walk fails only on reaching a truthy list or object as an id. */
  lemma {:induction false} WalkErr(table: Dict<Concept>, cur: Json, steps: nat)
    ensures Walk(table, cur, steps).Err? ==> steps > 0
    ensures Walk(table, cur, steps).Err? && Stops(table, cur) ==> false
    ensures Walk(table, cur, steps).Err? && !cur.Arr? && !cur.Obj? ==>
      cur.Str? && Walk(table, table.entries[cur.s].broader, steps - 1).Err?
  {
  }

  lemma {:induction false} ElementsBound(ids: seq<string>)
    ensures |Elements(ids)| <= |ids|
  {
    if ids != [] {
      var init := ids[..|ids| - 1];
      ElementsBound(init);
      assert Elements(ids) == Elements(init) + {ids[|ids| - 1]};
    }
  }

  /** `get_parent_hierarchy` returns at most 20 ids, all of them table keys;
      it contains the start id exactly when that id is non-empty and in the
      table (an empty id is falsy and ends the walk at once). */
  lemma HierarchyFacts(table: Dict<Concept>, start: string)
    ensures HierarchyOf(table, start).Ok? ==> |HierarchyOf(table, start).value| <= MaxDepth
    ensures HierarchyOf(table, start).Ok? ==> HierarchyOf(table, start).value <= table.entries.Keys
    ensures HierarchyOf(table, start).Ok? ==>
      (start in HierarchyOf(table, start).value <==> start != "" && start in table.entries)
    ensures start == "" || start !in table.entries ==> HierarchyOf(table, start) == Ok({})
  {
    WalkBound(table, Str(start), MaxDepth);
    WalkFollows(table, Str(start), MaxDepth);
    if HierarchyOf(table, start).Ok? {
      ElementsBound(Walk(table, Str(start), MaxDepth).value);
    }
  }
}
