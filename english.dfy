/** The concept table of the English service: for every SKOS concept, its
    first English preferred label, all its non-empty alternate labels and its
    first broader link. */
module EnglishTable {
  import opened Results
  import opened Seqs
  import opened Json
  import opened Dicts
  import opened Skos
  import Ordering

  /** One table entry: `{'@id', 'prefLabel', 'altLabel', 'broader'}`. The label
      values are kept as parsed; an absent broader link is `Null`. */
  datatype Concept = Concept(id: string, prefLabel: Json, altLabel: seq<Json>, broader: Json)

  const English := "en"

  /** The label is an English one: `label.get('@language') == 'en'`. */
  predicate IsEnglish(lbl: Json) {
    lbl.Obj? && GetOr(lbl.fields, "@language", Null) == Str(English)
  }

  /** Reference definition: the index of the first English label, if any. */
  function FirstEnglish(labels: seq<Json>): (r: Option<nat>)
    ensures r.Some? ==> r.value < |labels| && IsEnglish(labels[r.value])
    ensures r.Some? ==> forall j :: 0 <= j < r.value ==> !IsEnglish(labels[j])
    ensures r.None? ==> forall j :: 0 <= j < |labels| ==> !IsEnglish(labels[j])
    decreases |labels|
  {
    if labels == [] then None
    else if IsEnglish(labels[0]) then Some(0)
    else match FirstEnglish(labels[1..])
      case None => None
      case Some(i) => Some(i + 1)
  }

  /** The preferred-label loop (lines 80-85): the `@value` (default `""`) of the
      first English label; `""` when there is none. Every label up to that one
      must be an object, or `label.get` raises. */
  function EnglishLabel(labels: seq<Json>): Result<Json, Fault>
    decreases |labels|
  {
    if labels == [] then Ok(Str(""))
    else if !labels[0].Obj? then Err(Crash)
    else if IsEnglish(labels[0]) then Ok(GetOr(labels[0].fields, "@value", Str("")))
    else EnglishLabel(labels[1..])
  }

  /** The English label is read exactly when the labels up to the first English
      one (all of them if there is none) are objects, and it is that label's value. */
  lemma {:induction false} EnglishLabelFirst(labels: seq<Json>)
    ensures var upto := match FirstEnglish(labels) case Some(i) => i + 1 case None => |labels|;
      EnglishLabel(labels).Ok? <==> forall j :: 0 <= j < upto ==> labels[j].Obj?
    ensures EnglishLabel(labels).Ok? && FirstEnglish(labels).Some? ==>
      EnglishLabel(labels).value == GetOr(labels[FirstEnglish(labels).value].fields, "@value", Str(""))
    ensures EnglishLabel(labels).Ok? && FirstEnglish(labels).None? ==> EnglishLabel(labels).value == Str("")
    decreases |labels|
  {
    if labels != [] && labels[0].Obj? && !IsEnglish(labels[0]) {
      var tail := labels[1..];
      EnglishLabelFirst(tail);
      var upto := match FirstEnglish(tail) case Some(i) => i + 1 case None => |tail|;
      AllFront(labels, tail, upto + 1, (x: Json) => x.Obj?);
    }
  }

  method ReadEnglishLabel(labels: seq<Json>) returns (r: Result<Json, Fault>)
    ensures r == EnglishLabel(labels)
  {
    var i := 0;
    while i < |labels|
      invariant 0 <= i <= |labels|
      invariant EnglishLabel(labels) == EnglishLabel(labels[i..])
    {
      assert labels[i..][1..] == labels[i + 1..];
      var lbl := labels[i];
      if !lbl.Obj? {
        return Err(Crash);
      }
      if GetOr(lbl.fields, "@language", Null) == Str(English) {
        return Ok(GetOr(lbl.fields, "@value", Str("")));
      }
      i := i + 1;
    }
    return Ok(Str(""));
  }

  /** The alternate-label loop (lines 88-92): every truthy `@value`, in order. */
  function AltValues(labels: seq<Json>): (r: Result<seq<Json>, Fault>)
    ensures r.Ok? ==> forall j :: 0 <= j < |r.value| ==> Truthy(r.value[j])
    decreases |labels|
  {
    if labels == [] then Ok([])
    else
      var vs :- AltValues(labels[..|labels| - 1]);
      var lbl := labels[|labels| - 1];
      if !lbl.Obj? then Err(Crash)
      else
        var v := GetOr(lbl.fields, "@value", Null);
        Ok(if Truthy(v) then vs + [v] else vs)
  }

  /** The values of the labels that have a truthy one, in order. */
  function TruthyValues(labels: seq<Json>): seq<Json>
    requires forall j :: 0 <= j < |labels| ==> labels[j].Obj?
    decreases |labels|
  {
    if labels == [] then []
    else
      var v := GetOr(labels[|labels| - 1].fields, "@value", Null);
      TruthyValues(labels[..|labels| - 1]) + (if Truthy(v) then [v] else [])
  }

  /** Alternate labels are read exactly when every label is an object, and
      they are the truthy values in input order, of any language. */
  lemma {:induction false} AltValuesAll(labels: seq<Json>)
    ensures AltValues(labels).Ok? <==> forall j :: 0 <= j < |labels| ==> labels[j].Obj?
    ensures AltValues(labels).Ok? ==> AltValues(labels).value == TruthyValues(labels)
    decreases |labels|
  {
    if labels != [] {
      var init := labels[..|labels| - 1];
      AltValuesAll(init);
      assert forall j :: 0 <= j < |init| ==> init[j] == labels[j];
    }
  }

  lemma {:induction false} AltErrPersists(labels: seq<Json>, n: nat)
    requires n <= |labels| && AltValues(labels[..n]).Err?
    ensures AltValues(labels) == AltValues(labels[..n])
    decreases |labels| - n
  {
    if n < |labels| {
      assert labels[..n + 1][..n] == labels[..n];
      AltErrPersists(labels, n + 1);
    } else {
      assert labels[..n] == labels;
    }
  }

  method ReadAltValues(labels: seq<Json>) returns (r: Result<seq<Json>, Fault>)
    ensures r == AltValues(labels)
  {
    var vs := [];
    var i := 0;
    while i < |labels|
      invariant 0 <= i <= |labels|
      invariant AltValues(labels[..i]) == Ok(vs)
    {
      assert labels[..i + 1][..i] == labels[..i];
      var lbl := labels[i];
      if !lbl.Obj? {
        AltErrPersists(labels, i + 1);
        return Err(Crash);
      }
      var v := GetOr(lbl.fields, "@value", Null);
      if Truthy(v) {
        vs := vs + [v];
      }
      i := i + 1;
    }
    assert labels[..i] == labels;
    return Ok(vs);
  }

  /** The labels that `concept.get(key, [])` yields in a `for` loop. */
  function LabelItems(fields: seq<(string, Json)>, key: string): Result<seq<Json>, Fault> {
    Iterate(GetOr(fields, key, Arr([])))
  }

  /** The table entry read from one graph item (lines 66-105), or `None` for an
      item the selection skips. */
  function ConceptOf(item: Json): Read<Concept> {
    var keep :- Selects(item);
    if !keep then Ok(None)
    else
      var fields := item.fields;
      var prefItems :- LabelItems(fields, PrefLabelKey);
      var pref :- EnglishLabel(prefItems);
      var altItems :- LabelItems(fields, AltLabelKey);
      var alt :- AltValues(altItems);
      var broader :- BroaderOf(fields);
      var key :- KeyOf(Lookup(fields, IdKey).value);
      Ok(Some((key, Concept(key, pref, alt, broader))))
  }

  method ReadConcept(item: Json) returns (r: Read<Concept>)
    ensures r == ConceptOf(item)
  {
    var keep :- Selects(item);
    if !keep {
      return Ok(None);
    }
    var fields := item.fields;
    var prefItems :- LabelItems(fields, PrefLabelKey);
    var pref :- ReadEnglishLabel(prefItems);
    var altItems :- LabelItems(fields, AltLabelKey);
    var alt :- ReadAltValues(altItems);
    var broader :- BroaderOf(fields);
    var key :- KeyOf(Lookup(fields, IdKey).value);
    return Ok(Some((key, Concept(key, pref, alt, broader))));
  }

  /** A table as the loader builds it: keys in order, each entry carrying its own key. */
  ghost predicate GoodTable(table: Dict<Concept>) {
    Valid(table) && forall k :: k in table.entries ==> table.entries[k].id == k
  }

  /** `load_elsst_data` after `json.load` (lines 51-108). */
  function LoadOf(data: Json): Result<Dict<Concept>, Fault> {
    var graph :- GraphOf(data);
    TableOf(graph, ConceptOf)
  }

  method Load(data: Json) returns (r: Result<Dict<Concept>, Fault>)
    ensures r == LoadOf(data)
  {
    var graph :- ExtractGraph(data);
    var table := Empty();
    var i := 0;
    while i < |graph|
      invariant 0 <= i <= |graph|
      invariant TableOf(graph[..i], ConceptOf) == Ok(table)
    {
      TableNext(graph, ConceptOf, i, table);
      var c := ReadConcept(graph[i]);
      if c.Err? {
        return Err(c.error);
      }
      if c.value.Some? {
        table := Put(table, c.value.value.0, c.value.value.1);
      }
      i := i + 1;
    }
    assert graph[..i] == graph;
    return Ok(table);
  }

  /** Reading an item follows the selection rule and yields a concept keyed by its `@id`. */
  lemma ConceptOfSelects(item: Json)
    ensures FollowsSelection(item, ConceptOf(item))
    ensures ConceptOf(item).Ok? && ConceptOf(item).value.Some? ==>
      ConceptOf(item).value.value.1.id == ConceptOf(item).value.value.0
  {
  }

  /** The loaded table is keyed by the `@id`s of exactly the selected graph
      items, in order of first appearance. */
  lemma LoadedKeys(data: Json)
    requires LoadOf(data).Ok?
    ensures var graph := GraphOf(data).value; var t := LoadOf(data).value;
      && (forall k :: k in t.entries <==>
            exists i :: 0 <= i < |graph| && Selects(graph[i]) == Ok(true) && Lookup(graph[i].fields, IdKey) == Some(Str(k)))
      && t.keys == Ordering.FirstSeen(DefinedIds(graph, ConceptOf))
  {
    var graph := GraphOf(data).value;
    forall i | 0 <= i < |graph| ensures FollowsSelection(graph[i], ConceptOf(graph[i])) {
      ConceptOfSelects(graph[i]);
    }
    TableOfSelected(graph, ConceptOf);
    TableOrder(graph, ConceptOf);
  }

  /** Every entry of the loaded table carries its own key. */
  lemma LoadedGood(data: Json)
    requires LoadOf(data).Ok?
    ensures GoodTable(LoadOf(data).value)
  {
    var graph := GraphOf(data).value;
    var t := LoadOf(data).value;
    TableEntriesRead(graph, ConceptOf);
    forall k | k in t.entries ensures t.entries[k].id == k {
      var i :| 0 <= i < |graph| && ConceptOf(graph[i]) == Ok(Some((k, t.entries[k])));
      ConceptOfSelects(graph[i]);
    }
  }

  /** Each entry of the loaded table is the one read from the last item with its id. */
  lemma LoadedLastWins(data: Json, i: nat, k: string)
    requires LoadOf(data).Ok?
    requires i < |GraphOf(data).value| && Defines(ConceptOf(GraphOf(data).value[i]), k)
    requires forall j :: i < j < |GraphOf(data).value| ==> !Defines(ConceptOf(GraphOf(data).value[j]), k)
    ensures k in LoadOf(data).value.entries
    ensures LoadOf(data).value.entries[k] == ConceptOf(GraphOf(data).value[i]).value.value.1
  {
    TableLastWins(GraphOf(data).value, ConceptOf, i, k);
  }

  /** `get_concept_by_id(concept_id)` (lines 124-126). */
  function GetConceptById(table: Dict<Concept>, id: string): (r: Option<Concept>)
    requires GoodTable(table)
    ensures r.Some? <==> id in table.entries
    ensures r.Some? ==> r.value == table.entries[id] && r.value.id == id
  {
    Get(table, id)
  }
}
