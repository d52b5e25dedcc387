/** The `/api/topics` endpoint of the English service: the concepts whose
    preferred or alternate label contains the query, the union of their
    parent hierarchies, and the SKG-IF graph of those concepts. */
module Autocomplete {
  import opened Results
  import opened Seqs
  import opened Text
  import opened Json
  import opened Dicts
  import opened EnglishTable
  import opened Hierarchy
  import opened SkgIf

  const ContextUrl := "https://w3id.org/skg-if/context/skg-if.json"

  // ----- Matching -----

  /** `query in label.lower()` for one label value; `lower` on anything but a
      string raises. */
  function LabelMatch(query: string, v: Json): (r: Result<bool, Fault>)
    ensures r.Ok? <==> v.Str?
  {
    if v.Str? then Ok(IsSubstring(query, Lower(v.s))) else Err(Crash)
  }

  /** The label is a string whose lowercase contains the query. */
  predicate Hit(query: string, v: Json) {
    v.Str? && IsSubstring(query, Lower(v.s))
  }

  /** The alternate-label loop with its `break` (lines 193-196). */
  function AltMatch(query: string, alts: seq<Json>): Result<bool, Fault>
    decreases |alts|
  {
    if alts == [] then Ok(false)
    else
      var m :- LabelMatch(query, alts[0]);
      if m then Ok(true) else AltMatch(query, alts[1..])
  }

  /** A string label that is not a hit: the search goes past it. */
  predicate Miss(query: string, v: Json) {
    v.Str? && !Hit(query, v)
  }

  /** The search reaches label `j` and fails on it, since it is not a string. */
  ghost predicate FailsAt(query: string, alts: seq<Json>, j: int) {
    0 <= j < |alts| && !alts[j].Str? && forall i :: 0 <= i < j ==> Miss(query, alts[i])
  }

  /** The alternate labels are searched until the first hit: they raise
      exactly when a non-string comes before any hit, and otherwise they match
      exactly when some label is a hit. */
  lemma {:induction false} AltMatchFirst(query: string, alts: seq<Json>)
    ensures AltMatch(query, alts).Err? <==> exists j :: FailsAt(query, alts, j)
    ensures AltMatch(query, alts).Ok? ==>
      (AltMatch(query, alts).value <==> exists j :: 0 <= j < |alts| && Hit(query, alts[j]))
    ensures AltMatch(query, alts).Err? ==> AltMatch(query, alts).error == Crash
    decreases |alts|
  {
    if alts != [] {
      var tail := alts[1..];
      if Miss(query, alts[0]) {
        AltMatchFirst(query, tail);
        ExistsFront(alts, tail, (v: Json) => Hit(query, v));
        if exists j :: FailsAt(query, alts, j) {
          var j :| FailsAt(query, alts, j);
          AllFront(alts, tail, j, (v: Json) => Miss(query, v));
          assert FailsAt(query, tail, j - 1);
        }
        if exists j :: FailsAt(query, tail, j) {
          var j :| FailsAt(query, tail, j);
          AllFront(alts, tail, j + 1, (v: Json) => Miss(query, v));
          assert FailsAt(query, alts, j + 1);
        }
      } else if !alts[0].Str? {
        assert FailsAt(query, alts, 0);
      }
    }
  }

  method MatchAlt(query: string, alts: seq<Json>) returns (r: Result<bool, Fault>)
    ensures r == AltMatch(query, alts)
  {
    var i := 0;
    while i < |alts|
      invariant 0 <= i <= |alts|
      invariant AltMatch(query, alts) == AltMatch(query, alts[i..])
    {
      assert alts[i..][1..] == alts[i + 1..];
      var alt := alts[i];
      if !alt.Str? {
        return Err(Crash);
      }
      if IsSubstring(query, Lower(alt.s)) {
        return Ok(true);
      }
      i := i + 1;
    }
    return Ok(false);
  }

  /** The test applied to one table entry (lines 190-196). */
  function ConceptMatch(query: string, c: Concept): Result<bool, Fault> {
    var p :- LabelMatch(query, c.prefLabel);
    var a :- AltMatch(query, c.altLabel);
    Ok(p || a)
  }

  /** Reference definition: the preferred label or some alternate label is a hit. */
  predicate Mentions(query: string, c: Concept) {
    Hit(query, c.prefLabel) || exists j :: 0 <= j < |c.altLabel| && Hit(query, c.altLabel[j])
  }

  /** A concept matches exactly when it mentions the query; the test raises
      when the preferred label is not a string or the alternate labels raise. */
  lemma ConceptMatchMentions(query: string, c: Concept)
    ensures ConceptMatch(query, c).Ok? ==> (ConceptMatch(query, c).value <==> Mentions(query, c))
    ensures ConceptMatch(query, c).Err? <==> !c.prefLabel.Str? || AltMatch(query, c.altLabel).Err?
    ensures ConceptMatch(query, c).Err? ==> ConceptMatch(query, c).error == Crash
  {
    AltMatchFirst(query, c.altLabel);
  }

  /** The ids are keys of the table. */
  ghost predicate KeysIn(table: Dict<Concept>, ids: seq<string>) {
    forall j :: 0 <= j < |ids| ==> ids[j] in table.entries
  }

  /** The match loop over the table in the given key order (lines 187-196). */
  function MatchesOf(table: Dict<Concept>, query: string, ids: seq<string>): Result<set<string>, Fault>
    requires KeysIn(table, ids)
    decreases |ids|
  {
    if ids == [] then Ok({})
    else
      var k := ids[|ids| - 1];
      var acc :- MatchesOf(table, query, ids[..|ids| - 1]);
      var m :- ConceptMatch(query, table.entries[k]);
      Ok(if m then acc + {k} else acc)
  }

  lemma {:induction false} MatchesErrPersists(table: Dict<Concept>, query: string, ids: seq<string>, n: nat)
    requires KeysIn(table, ids)
    requires n <= |ids| && MatchesOf(table, query, ids[..n]).Err?
    ensures MatchesOf(table, query, ids) == MatchesOf(table, query, ids[..n])
    decreases |ids| - n
  {
    if n < |ids| {
      assert ids[..n + 1][..n] == ids[..n];
      MatchesErrPersists(table, query, ids, n + 1);
    } else {
      assert ids[..n] == ids;
    }
  }

  method FindMatches(table: Dict<Concept>, query: string) returns (r: Result<set<string>, Fault>)
    requires GoodTable(table)
    ensures r == MatchesOf(table, query, table.keys)
  {
    var ids := table.keys;
    var matching: set<string> := {};
    var i := 0;
    while i < |ids|
      invariant 0 <= i <= |ids|
      invariant MatchesOf(table, query, ids[..i]) == Ok(matching)
    {
      assert ids[..i + 1][..i] == ids[..i];
      var k := ids[i];
      var c := table.entries[k];
      if !c.prefLabel.Str? {
        MatchesErrPersists(table, query, ids, i + 1);
        return Err(Crash);
      }
      ghost var before := matching;
      if IsSubstring(query, Lower(c.prefLabel.s)) {
        matching := matching + {k};
      }
      var a := MatchAlt(query, c.altLabel);
      if a.Err? {
        MatchesErrPersists(table, query, ids, i + 1);
        return Err(a.error);
      }
      if a.value {
        matching := matching + {k};
      }
      assert matching == if IsSubstring(query, Lower(c.prefLabel.s)) || a.value then before + {k} else before;
      i := i + 1;
    }
    assert ids[..i] == ids;
    return Ok(matching);
  }

  /** Soundness and completeness of the search: an id is matched exactly when
      it is a key of the table whose concept mentions the query. */
  lemma {:induction false} MatchesExactly(table: Dict<Concept>, query: string, ids: seq<string>, id: string)
    requires KeysIn(table, ids) && MatchesOf(table, query, ids).Ok?
    ensures id in MatchesOf(table, query, ids).value <==> id in ids && Mentions(query, table.entries[id])
    decreases |ids|
  {
    if ids != [] {
      var init := ids[..|ids| - 1];
      var k := ids[|ids| - 1];
      MatchesExactly(table, query, init, id);
      ConceptMatchMentions(query, table.entries[k]);
      assert ids == init + [k];
    }
  }

  /** The search raises exactly when the test raises on some entry. */
  lemma {:induction false} MatchesErr(table: Dict<Concept>, query: string, ids: seq<string>)
    requires KeysIn(table, ids)
    ensures MatchesOf(table, query, ids).Err? <==> exists j :: 0 <= j < |ids| && ConceptMatch(query, table.entries[ids[j]]).Err?
    decreases |ids|
  {
    if ids != [] {
      var init := ids[..|ids| - 1];
      MatchesErr(table, query, init);
      assert forall j :: 0 <= j < |init| ==> init[j] == ids[j];
    }
  }

  // ----- Hierarchies -----

  /** The union of the hierarchies of `ids` that can be computed. */
  function Related(table: Dict<Concept>, ids: set<string>): set<string> {
    set id, x | id in ids && HierarchyOf(table, id).Ok? && x in HierarchyOf(table, id).value :: x
  }

  /** The closure loop (lines 199-201): the union of the hierarchies of all
      matches; it raises when one of them does, whatever the iteration order. */
  function ClosureOf(table: Dict<Concept>, ids: set<string>): Result<set<string>, Fault> {
    if exists id :: id in ids && HierarchyOf(table, id).Err? then Err(Crash)
    else Ok(Related(table, ids))
  }

  method CollectHierarchies(table: Dict<Concept>, ids: set<string>) returns (r: Result<set<string>, Fault>)
    ensures r == ClosureOf(table, ids)
  {
    var all: set<string> := {};
    var rest := ids;
    while rest != {}
      invariant rest <= ids
      invariant forall id :: id in ids - rest ==> HierarchyOf(table, id).Ok?
      invariant all == Related(table, ids - rest)
      decreases rest
    {
      var id :| id in rest;
      var h := GetParentHierarchy(table, id);
      if h.Err? {
        return Err(Crash);
      }
      assert Related(table, ids - (rest - {id})) == Related(table, ids - rest) + h.value;
      all := all + h.value;
      rest := rest - {id};
    }
    assert ids - rest == ids;
    return Ok(all);
  }

  /** Every related id is a table key, and every match that the walk can start
      from (a non-empty id) is itself related. */
  lemma ClosureFacts(table: Dict<Concept>, ids: set<string>, id: string)
    requires ClosureOf(table, ids).Ok?
    ensures ClosureOf(table, ids).value <= table.entries.Keys
    ensures id in ids && id != "" && id in table.entries ==> id in ClosureOf(table, ids).value
    ensures id in ClosureOf(table, ids).value <==> exists m :: m in ids && id in HierarchyOf(table, m).value
  {
    forall m | m in ids ensures HierarchyOf(table, m).value <= table.entries.Keys {
      HierarchyFacts(table, m);
    }
    if id in ids {
      HierarchyFacts(table, id);
    }
  }

  // ----- The response graph -----

  /** One Topic per id, in the given order. */
  function Topics(table: Dict<Concept>, order: seq<string>): (r: seq<Json>)
    requires KeysIn(table, order)
    ensures |r| == |order|
  {
    seq(|order|, j requires 0 <= j < |order| => ToSkgifTopic(table.entries[order[j]]))
  }

  /** `order` lists the elements of `s`, each once. */
  ghost predicate Enumerates(order: seq<string>, s: set<string>) {
    && (forall i, j :: 0 <= i < j < |order| ==> order[i] != order[j])
    && (forall x :: x in s <==> x in order)
  }

  /** The graph loop (lines 204-208): the DataSource, then a Topic for each
      related id found in the table, in the set's iteration order. */
  method BuildGraph(table: Dict<Concept>, related: set<string>) returns (graph: seq<Json>, ghost order: seq<string>)
    ensures Enumerates(order, related * table.entries.Keys) && KeysIn(table, order)
    ensures graph == [DataSource()] + Topics(table, order)
  {
    graph := [DataSource()];
    order := [];
    var rest := related;
    while rest != {}
      invariant rest <= related
      invariant Enumerates(order, (related - rest) * table.entries.Keys) && KeysIn(table, order)
      invariant graph == [DataSource()] + Topics(table, order)
      decreases rest
    {
      var id :| id in rest;
      var c := Get(table, id);
      if c.Some? {
        assert id !in order;
        graph := graph + [ToSkgifTopic(c.value)];
        order := order + [id];
      }
      rest := rest - {id};
    }
    assert related - rest == related;
  }

  /** The JSON-LD response (lines 211-219). */
  function Response(graph: seq<Json>): Json {
    Obj([
      ("@context", Arr([Str(ContextUrl), Obj([("@base", Str(BaseUrl))])])),
      ("@graph", Arr(graph))
    ])
  }

  /** The ids matching `q`, searched in table order. */
  function Matches(table: Dict<Concept>, q: string): Result<set<string>, Fault>
    requires GoodTable(table)
  {
    assert KeysIn(table, table.keys);
    MatchesOf(table, Lower(q), table.keys)
  }

  /** The ids the response describes, or the fault the endpoint raises. */
  function Outcome(table: Dict<Concept>, q: string): Result<set<string>, Fault>
    requires GoodTable(table)
  {
    var matches :- Matches(table, q);
    ClosureOf(table, matches)
  }

  /** `autocomplete(q)` (lines 175-221). */
  method Autocomplete(table: Dict<Concept>, q: string) returns (r: Result<Json, Fault>, ghost order: seq<string>)
    requires GoodTable(table)
    ensures r.Err? <==> Outcome(table, q).Err?
    ensures r.Ok? ==> Enumerates(order, Outcome(table, q).value) && KeysIn(table, order)
    ensures r.Ok? ==> r.value == Response([DataSource()] + Topics(table, order))
  {
    order := [];
    var query := Lower(q);
    var matches := FindMatches(table, query);
    if matches.Err? {
      return Err(matches.error), order;
    }
    var related := CollectHierarchies(table, matches.value);
    if related.Err? {
      return Err(related.error), order;
    }
    ghost var m := matches.value;
    forall id | id in related.value ensures id in table.entries {
      ClosureFacts(table, m, id);
    }
    assert related.value * table.entries.Keys == related.value;
    var graph;
    graph, order := BuildGraph(table, related.value);
    return Ok(Response(graph)), order;
  }

  lemma {:induction false} EnumerationLength(order: seq<string>, s: set<string>)
    requires Enumerates(order, s)
    ensures |s| == |order|
    decreases |order|
  {
    if order != [] {
      var init := order[..|order| - 1];
      var last := order[|order| - 1];
      assert Enumerates(init, s - {last});
      EnumerationLength(init, s - {last});
    }
  }

  /** The response graph: the DataSource first, then exactly one Topic per
      related id with no id twice, so it has 1 + |related| members. */
  lemma ResponseGraph(table: Dict<Concept>, related: set<string>, order: seq<string>)
    requires Enumerates(order, related) && KeysIn(table, order)
    ensures var graph := [DataSource()] + Topics(table, order);
      && graph[0] == DataSource()
      && |graph| == 1 + |related|
      && (forall j :: 1 <= j < |graph| ==> graph[j] == ToSkgifTopic(table.entries[order[j - 1]]))
  {
    EnumerationLength(order, related);
  }

  /** Every non-empty matching id gets a Topic, and no match leaves only the DataSource. */
  lemma ResponseShowsMatches(table: Dict<Concept>, q: string, order: seq<string>, id: string)
    requires GoodTable(table) && Outcome(table, q).Ok?
    requires Enumerates(order, Outcome(table, q).value) && KeysIn(table, order)
    ensures id in Matches(table, q).value && id != "" ==> id in order
    ensures Matches(table, q).value == {} ==> order == []
  {
    var m := Matches(table, q).value;
    assert KeysIn(table, table.keys);
    MatchesExactly(table, Lower(q), table.keys, id);
    ClosureFacts(table, m, id);
    if m == {} {
      assert Related(table, m) == {};
      EnumerationLength(order, {});
    }
  }
}
