/** What both versions of the service do alike with an ELSST JSON-LD export:
    find the graph, pick out the SKOS concepts, read the first `broader` link,
    and collect the concepts into a table keyed by `@id`. */
module Skos {
  import opened Results
  import opened Seqs
  import opened Json
  import opened Dicts
  import Ordering

  const GraphKey := "@graph"
  const IdKey := "@id"
  const TypeKey := "@type"
  const ConceptType := "http://www.w3.org/2004/02/skos/core#Concept"
  const PrefLabelKey := "http://www.w3.org/2004/02/skos/core#prefLabel"
  const AltLabelKey := "http://www.w3.org/2004/02/skos/core#altLabel"
  const BroaderKey := "http://www.w3.org/2004/02/skos/core#broader"

  // ----- Finding the graph -----

  /** What one element of a top-level list adds to the graph:
      `if '@graph' in item: graph.extend(item['@graph'])`. */
  function GraphPart(item: Json): Result<seq<Json>, Fault> {
    match Contains(item, GraphKey)
    case Err(e) => Err(e)
    case Ok(false) => Ok([])
    case Ok(true) =>
      if item.Obj? then Iterate(Lookup(item.fields, GraphKey).value)
      else Err(Crash)  // a list or a str indexed by a str
  }

  /** The graph gathered from the elements of a top-level list, in order. */
  function ListGraph(items: seq<Json>): Result<seq<Json>, Fault>
    decreases |items|
  {
    if items == [] then Ok([])
    else match ListGraph(items[..|items| - 1])
      case Err(e) => Err(e)
      case Ok(g) =>
        match GraphPart(items[|items| - 1])
        case Err(e) => Err(e)
        case Ok(p) => Ok(g + p)
  }

  /** The items the concept loop visits. */
  function GraphOf(data: Json): Result<seq<Json>, Fault> {
    if data.Obj? && HasKey(data.fields, GraphKey) then Iterate(Lookup(data.fields, GraphKey).value)
    else if data.Arr? then ListGraph(data.items)
    else Ok([])
  }

  lemma {:induction false} ListGraphErrPersists(items: seq<Json>, n: nat)
    requires n <= |items| && ListGraph(items[..n]).Err?
    ensures ListGraph(items) == ListGraph(items[..n])
    decreases |items| - n
  {
    if n < |items| {
      assert items[..n + 1][..n] == items[..n];
      ListGraphErrPersists(items, n + 1);
    } else {
      assert items[..n] == items;
    }
  }

  method ExtractGraph(data: Json) returns (r: Result<seq<Json>, Fault>)
    ensures r == GraphOf(data)
    ensures !data.Arr? && !(data.Obj? && HasKey(data.fields, GraphKey)) ==> r == Ok([])
  {
    if data.Obj? && HasKey(data.fields, GraphKey) {
      r := Iterate(Lookup(data.fields, GraphKey).value);
    } else if data.Arr? {
      var items := data.items;
      var graph := [];
      var i := 0;
      while i < |items|
        invariant 0 <= i <= |items|
        invariant ListGraph(items[..i]) == Ok(graph)
      {
        assert items[..i + 1][..i] == items[..i];
        var item := items[i];
        var has := Contains(item, GraphKey);
        if has.Err? {
          ListGraphErrPersists(items, i + 1);
          return Err(has.error);
        }
        if has.value {
          if !item.Obj? {
            ListGraphErrPersists(items, i + 1);
            return Err(Crash);
          }
          var part := Iterate(Lookup(item.fields, GraphKey).value);
          if part.Err? {
            ListGraphErrPersists(items, i + 1);
            return Err(part.error);
          }
          assert GraphPart(item) == part;
          graph := graph + part.value;
        } else {
          assert GraphPart(item) == Ok([]);
          assert graph + [] == graph;
        }
        i := i + 1;
      }
      assert items[..i] == items;
      r := Ok(graph);
    } else {
      r := Ok([]);
    }
  }

  /** Concatenation of a sequence of sequences, in order. */
  function Flatten(parts: seq<seq<Json>>): seq<Json>
    decreases |parts|
  {
    if parts == [] then [] else Flatten(parts[..|parts| - 1]) + parts[|parts| - 1]
  }

  /** A top-level list of objects, each having no `@graph` or a `@graph` array. */
  ghost predicate GraphList(items: seq<Json>) {
    forall i :: 0 <= i < |items| ==>
      items[i].Obj? && (HasKey(items[i].fields, GraphKey) ==> Lookup(items[i].fields, GraphKey).value.Arr?)
  }

  /** The `@graph` array of one element of a graph list, or nothing. */
  function GraphArray(item: Json): seq<Json>
    requires item.Obj?
  {
    if HasKey(item.fields, GraphKey) && Lookup(item.fields, GraphKey).value.Arr?
    then Lookup(item.fields, GraphKey).value.items else []
  }

  /** On a list of objects the graph is the `@graph` arrays one after the other. */
  lemma {:induction false} ListGraphConcatenates(items: seq<Json>)
    requires GraphList(items)
    ensures ListGraph(items) == Ok(Flatten(seq(|items|, i requires 0 <= i < |items| => GraphArray(items[i]))))
    decreases |items|
  {
    var parts := seq(|items|, i requires 0 <= i < |items| => GraphArray(items[i]));
    if items != [] {
      var init := items[..|items| - 1];
      assert GraphList(init);
      ListGraphConcatenates(init);
      assert parts[..|parts| - 1] == seq(|init|, i requires 0 <= i < |init| => GraphArray(init[i]));
    }
  }

  /** The top-level shapes: an object with `@graph`, a list, anything else. */
  lemma GraphShapes(data: Json)
    ensures data.Obj? && HasKey(data.fields, GraphKey) && Lookup(data.fields, GraphKey).value.Arr?
      ==> GraphOf(data) == Ok(Lookup(data.fields, GraphKey).value.items)
    ensures data.Arr? && GraphList(data.items)
      ==> GraphOf(data) == Ok(Flatten(seq(|data.items|, i requires 0 <= i < |data.items| => GraphArray(data.items[i]))))
    ensures !data.Arr? && !(data.Obj? && HasKey(data.fields, GraphKey)) ==> GraphOf(data) == Ok([])
  {
    if data.Arr? && GraphList(data.items) {
      ListGraphConcatenates(data.items);
    }
  }

  // ----- Picking out the concepts -----

  /** A `@type` value that names skos:Concept for Python's `in`: the type
      itself, a list holding it, or (a quirk of `in`) an object with it as a key. */
  predicate NamesConcept(types: Json) {
    || types == Str(ConceptType)
    || (types.Arr? && Str(ConceptType) in types.items)
    || (types.Obj? && HasKey(types.fields, ConceptType))
  }

  /** Whether the concept loop keeps `item`: an object with an `@id` whose
      `@type` (a string or a list, `[]` when absent) contains skos:Concept. A
      `@type` of null, a boolean or a number makes `in` raise. */
  function Selects(item: Json): (r: Result<bool, Fault>)
    ensures r == Ok(true) <==>
      item.Obj? && HasKey(item.fields, IdKey) && NamesConcept(GetOr(item.fields, TypeKey, Arr([])))
    ensures r.Err? <==>
      item.Obj? && HasKey(item.fields, IdKey) && HasKey(item.fields, TypeKey)
      && (var t := Lookup(item.fields, TypeKey).value; t.Null? || t.Bool? || t.Num?)
  {
    if !item.Obj? || !HasKey(item.fields, IdKey) then Ok(false)
    else
      var types := GetOr(item.fields, TypeKey, Arr([]));
      Contains(if types.Str? then Arr([types]) else types, ConceptType)
  }

  /** The broader value, a lone object wrapped into a one-element list. */
  function BroaderList(fields: seq<(string, Json)>): Json {
    var b := GetOr(fields, BroaderKey, Arr([]));
    if b.Obj? then Arr([b]) else b
  }

  /** `broader[0].get('@id') if broader else None`: the `@id` of the first broader
      entry (null when it has none), null when there are no entries, and a raise
      when the first entry is not an object or the value is a non-empty str, a
      number or `true`. */
  function BroaderOf(fields: seq<(string, Json)>): (r: Result<Json, Fault>)
    ensures !HasKey(fields, BroaderKey) ==> r == Ok(Null)
    ensures r.Ok? <==> !Truthy(BroaderList(fields)) || (BroaderList(fields).Arr? && BroaderList(fields).items[0].Obj?)
    ensures r.Ok? && Truthy(BroaderList(fields)) ==> r.value == GetOr(BroaderList(fields).items[0].fields, IdKey, Null)
    ensures r.Ok? && !Truthy(BroaderList(fields)) ==> r.value == Null
  {
    var b := BroaderList(fields);
    if !Truthy(b) then Ok(Null)
    else match b
      case Arr(items) => GetAttr(items[0], IdKey, Null)
      case _ => Err(Crash)
  }

  // ----- The concept table -----

  /** What reading one graph item gives: a raise, a skipped item, or an entry. */
  type Read<C> = Result<Option<(string, C)>, Fault>

  predicate Defines<C>(r: Read<C>, k: string) {
    r.Ok? && r.value.Some? && r.value.value.0 == k
  }

  /** `processed_data[concept_id] = ...` for every graph item in turn. */
  function TableOf<C>(graph: seq<Json>, read: Json -> Read<C>): (r: Result<Dict<C>, Fault>)
    ensures r.Ok? ==> Valid(r.value)
    decreases |graph|
  {
    if graph == [] then Ok(Empty())
    else match TableOf(graph[..|graph| - 1], read)
      case Err(e) => Err(e)
      case Ok(t) =>
        match read(graph[|graph| - 1])
        case Err(e) => Err(e)
        case Ok(None) => Ok(t)
        case Ok(Some(entry)) => Ok(Put(t, entry.0, entry.1))
  }

  lemma {:induction false} TableErrPersists<C>(graph: seq<Json>, read: Json -> Read<C>, n: nat)
    requires n <= |graph| && TableOf(graph[..n], read).Err?
    ensures TableOf(graph, read) == TableOf(graph[..n], read)
    decreases |graph| - n
  {
    if n < |graph| {
      assert graph[..n + 1][..n] == graph[..n];
      TableErrPersists(graph, read, n + 1);
    } else {
      assert graph[..n] == graph;
    }
  }

  /** One more item read by the load: either reading it raises, and so does
      the whole load, or the load goes on with the entry it gives, if any. */
  lemma TableNext<C>(graph: seq<Json>, read: Json -> Read<C>, i: nat, t: Dict<C>)
    requires i < |graph| && TableOf(graph[..i], read) == Ok(t)
    ensures read(graph[i]).Err? ==> TableOf(graph, read) == Err(read(graph[i]).error)
    ensures read(graph[i]) == Ok(None) ==> TableOf(graph[..i + 1], read) == Ok(t)
    ensures read(graph[i]).Ok? && read(graph[i]).value.Some? ==>
      TableOf(graph[..i + 1], read) == Ok(Put(t, read(graph[i]).value.value.0, read(graph[i]).value.value.1))
  {
    assert graph[..i + 1][..i] == graph[..i];
    if read(graph[i]).Err? {
      TableErrPersists(graph, read, i + 1);
    }
  }

  /** The load fails exactly when reading some item fails. */
  lemma {:induction false} TableErr<C>(graph: seq<Json>, read: Json -> Read<C>)
    ensures TableOf(graph, read).Err? <==> exists i :: 0 <= i < |graph| && read(graph[i]).Err?
    decreases |graph|
  {
    if graph != [] {
      var init := graph[..|graph| - 1];
      TableErr(init, read);
      ExistsSplit(graph, init, x => read(x).Err?);
    }
  }

  /** The table's keys are exactly the ids of the entries read. */
  lemma {:induction false} TableKeys<C>(graph: seq<Json>, read: Json -> Read<C>)
    requires TableOf(graph, read).Ok?
    ensures forall k :: k in TableOf(graph, read).value.entries <==>
      exists i :: 0 <= i < |graph| && Defines(read(graph[i]), k)
    decreases |graph|
  {
    if graph != [] {
      var init := graph[..|graph| - 1];
      TableKeys(init, read);
      forall k
        ensures k in TableOf(graph, read).value.entries <==> exists i :: 0 <= i < |graph| && Defines(read(graph[i]), k)
      {
        ExistsSplit(graph, init, x => Defines(read(x), k));
      }
    }
  }

  /** Two items with the same id: the later one wins. */
  lemma {:induction false} TableLastWins<C>(graph: seq<Json>, read: Json -> Read<C>, i: nat, k: string)
    requires TableOf(graph, read).Ok?
    requires i < |graph| && Defines(read(graph[i]), k)
    requires forall j :: i < j < |graph| ==> !Defines(read(graph[j]), k)
    ensures k in TableOf(graph, read).value.entries
    ensures TableOf(graph, read).value.entries[k] == read(graph[i]).value.value.1
    decreases |graph|
  {
    var init := graph[..|graph| - 1];
    if i < |graph| - 1 {
      assert init[i] == graph[i];
      AfterPrefix(graph, init, i, x => !Defines(read(x), k));
      TableLastWins(init, read, i, k);
    }
  }

  /** Every entry of the table is what reading some item of the graph gave. */
  lemma {:induction false} TableEntriesRead<C>(graph: seq<Json>, read: Json -> Read<C>)
    requires TableOf(graph, read).Ok?
    ensures forall k :: k in TableOf(graph, read).value.entries ==>
      exists i :: 0 <= i < |graph| && read(graph[i]) == Ok(Some((k, TableOf(graph, read).value.entries[k])))
    decreases |graph|
  {
    if graph != [] {
      var init := graph[..|graph| - 1];
      TableEntriesRead(init, read);
      var t := TableOf(graph, read).value;
      forall k | k in t.entries
        ensures exists i :: 0 <= i < |graph| && read(graph[i]) == Ok(Some((k, t.entries[k])))
      {
        var r := read(graph[|graph| - 1]);
        if !(r.Ok? && r.value.Some? && r.value.value.0 == k) {
          var i :| 0 <= i < |init| && read(init[i]) == Ok(Some((k, t.entries[k])));
          assert graph[i] == init[i];
        } else {
          assert read(graph[|graph| - 1]) == Ok(Some((k, t.entries[k])));
        }
      }
    }
  }

  /** The ids of the entries read, in graph order, repeats included. */
  function DefinedIds<C>(graph: seq<Json>, read: Json -> Read<C>): seq<string>
    decreases |graph|
  {
    if graph == [] then []
    else
      var r := read(graph[|graph| - 1]);
      DefinedIds(graph[..|graph| - 1], read) + (if r.Ok? && r.value.Some? then [r.value.value.0] else [])
  }

  /** The table keeps its keys in order of first appearance in the graph. */
  lemma {:induction false} TableOrder<C>(graph: seq<Json>, read: Json -> Read<C>)
    requires TableOf(graph, read).Ok?
    ensures TableOf(graph, read).value.keys == Ordering.FirstSeen(DefinedIds(graph, read))
    decreases |graph|
  {
    if graph != [] {
      var init := graph[..|graph| - 1];
      TableOrder(init, read);
      var r := read(graph[|graph| - 1]);
      var ids := DefinedIds(graph, read);
      if r.Ok? && r.value.Some? {
        var prev := DefinedIds(init, read);
        assert ids == prev + [r.value.value.0];
        assert ids[..|ids| - 1] == prev;
        TableKeys(init, read);
        var t := TableOf(init, read).value;
        assert forall k :: k in t.keys <==> k in prev;
        assert TableOf(graph, read) == Ok(Put(t, r.value.value.0, r.value.value.1));
        assert Ordering.FirstSeen(ids) == if r.value.value.0 in Ordering.FirstSeen(prev) then Ordering.FirstSeen(prev) else Ordering.FirstSeen(prev) + [r.value.value.0];
      } else {
        assert r.Ok?;
        assert ids == DefinedIds(init, read) + [];
        assert ids == DefinedIds(init, read);
        assert TableOf(graph, read) == TableOf(init, read);
      }
    }
  }

  /** A reader agrees with the selection rule on `item`: it skips exactly the items
      the rule skips, raises where the rule raises, and keys a kept item by its `@id`. */
  ghost predicate FollowsSelection<C>(item: Json, r: Read<C>) {
    && (Selects(item) == Ok(false) <==> r == Ok(None))
    && (Selects(item).Err? ==> r.Err?)
    && (r.Ok? && r.value.Some? ==> Selects(item) == Ok(true) && Lookup(item.fields, IdKey) == Some(Str(r.value.value.0)))
  }

  /** The table holds exactly the selected items of the graph, keyed by `@id`. */
  lemma TableOfSelected<C>(graph: seq<Json>, read: Json -> Read<C>)
    requires forall i :: 0 <= i < |graph| ==> FollowsSelection(graph[i], read(graph[i]))
    requires TableOf(graph, read).Ok?
    ensures forall k :: k in TableOf(graph, read).value.entries <==>
      exists i :: 0 <= i < |graph| && Selects(graph[i]) == Ok(true) && Lookup(graph[i].fields, IdKey) == Some(Str(k))
  {
    TableKeys(graph, read);
    TableErr(graph, read);
    forall k ensures k in TableOf(graph, read).value.entries <==>
      exists i :: 0 <= i < |graph| && Selects(graph[i]) == Ok(true) && Lookup(graph[i].fields, IdKey) == Some(Str(k))
    {
      if exists i :: 0 <= i < |graph| && Selects(graph[i]) == Ok(true) && Lookup(graph[i].fields, IdKey) == Some(Str(k)) {
        var i :| 0 <= i < |graph| && Selects(graph[i]) == Ok(true) && Lookup(graph[i].fields, IdKey) == Some(Str(k));
        assert read(graph[i]).Ok? && read(graph[i]).value.Some?;
        assert Defines(read(graph[i]), k);
      }
    }
  }
}
