/** The concept table of the multilingual service: for every SKOS concept,
    one preferred label per language, the alternate labels of each language
    and the first broader link. */
module Multilingual {
  import opened Results
  import opened Json
  import opened Dicts
  import opened Skos
  import opened Seqs

  /** One table entry: `{'@id', 'prefLabels', 'altLabels', 'broader'}`. An absent
      broader link is `Null` (Python's None). */
  datatype Concept = Concept(id: string, prefLabels: Dict<Json>, altLabels: Dict<seq<Json>>, broader: Json)

  /** `label.get('@language')` of a label object. */
  function LangOf(lbl: Json): Json
    requires lbl.Obj?
  {
    GetOr(lbl.fields, "@language", Null)
  }

  /** `label.get('@value')` of a label object. */
  function ValueOf(lbl: Json): Json
    requires lbl.Obj?
  {
    GetOr(lbl.fields, "@value", Null)
  }

  /** `if lang and value`: the label is recorded. */
  predicate Kept(lbl: Json)
    requires lbl.Obj?
  {
    Truthy(LangOf(lbl)) && Truthy(ValueOf(lbl))
  }

  /** The label is recorded under language `lang`. */
  predicate KeptIn(lbl: Json, lang: string) {
    lbl.Obj? && Kept(lbl) && LangOf(lbl) == Str(lang)
  }

  /** Reading the label does not raise: it is an object, and when it is
      recorded its language is a string. */
  predicate Readable(lbl: Json) {
    lbl.Obj? && (Kept(lbl) ==> LangOf(lbl).Str?)
  }

  // ----- Preferred labels: `pref_labels[lang] = value` -----

  function PrefLabelsOf(labels: seq<Json>): (r: Result<Dict<Json>, Fault>)
    ensures r.Ok? ==> Valid(r.value)
    decreases |labels|
  {
    if labels == [] then Ok(Empty())
    else
      var d :- PrefLabelsOf(labels[..|labels| - 1]);
      var lbl := labels[|labels| - 1];
      if !lbl.Obj? then Err(Crash)
      else if !Kept(lbl) then Ok(d)
      else
        var lang :- KeyOf(LangOf(lbl));
        Ok(Put(d, lang, ValueOf(lbl)))
  }

  lemma {:induction false} PrefErrPersists(labels: seq<Json>, n: nat)
    requires n <= |labels| && PrefLabelsOf(labels[..n]).Err?
    ensures PrefLabelsOf(labels) == PrefLabelsOf(labels[..n])
    decreases |labels| - n
  {
    if n < |labels| {
      assert labels[..n + 1][..n] == labels[..n];
      PrefErrPersists(labels, n + 1);
    } else {
      assert labels[..n] == labels;
    }
  }

  /** One more label read by the fold: either it raises, and so does the whole
      fold, or the fold goes on with the updated dict. */
  lemma PrefNext(labels: seq<Json>, i: nat, d: Dict<Json>)
    requires i < |labels| && PrefLabelsOf(labels[..i]) == Ok(d)
    ensures !labels[i].Obj? ==> PrefLabelsOf(labels) == Err(Crash)
    ensures labels[i].Obj? && !Kept(labels[i]) ==> PrefLabelsOf(labels[..i + 1]) == Ok(d)
    ensures labels[i].Obj? && Kept(labels[i]) && !LangOf(labels[i]).Str? ==>
      PrefLabelsOf(labels) == Err(KeyOf(LangOf(labels[i])).error)
    ensures labels[i].Obj? && Kept(labels[i]) && LangOf(labels[i]).Str? ==>
      PrefLabelsOf(labels[..i + 1]) == Ok(Put(d, LangOf(labels[i]).s, ValueOf(labels[i])))
  {
    assert labels[..i + 1][..i] == labels[..i];
    if PrefLabelsOf(labels[..i + 1]).Err? {
      PrefErrPersists(labels, i + 1);
    }
  }

  method ReadPrefLabels(labels: seq<Json>) returns (r: Result<Dict<Json>, Fault>)
    ensures r == PrefLabelsOf(labels)
  {
    var d := Empty();
    var i := 0;
    while i < |labels|
      invariant 0 <= i <= |labels|
      invariant PrefLabelsOf(labels[..i]) == Ok(d)
    {
      PrefNext(labels, i, d);
      var lbl := labels[i];
      if !lbl.Obj? {
        return Err(Crash);
      }
      var lang := GetOr(lbl.fields, "@language", Null);
      var value := GetOr(lbl.fields, "@value", Null);
      if Truthy(lang) && Truthy(value) {
        var key := KeyOf(lang);
        if key.Err? {
          return Err(key.error);
        }
        d := Put(d, key.value, value);
      }
      i := i + 1;
    }
    assert labels[..i] == labels;
    return Ok(d);
  }

  /** The preferred labels are read without a raise exactly when every label is readable. */
  lemma {:induction false} PrefLabelsOk(labels: seq<Json>)
    ensures PrefLabelsOf(labels).Ok? <==> forall i :: 0 <= i < |labels| ==> Readable(labels[i])
    decreases |labels|
  {
    if labels != [] {
      var init := labels[..|labels| - 1];
      PrefLabelsOk(init);
      AllSplit(labels, init, x => Readable(x));
    }
  }

  /** One step of the preferred-label fold, seen from language `lang`. */
  lemma PrefStep(labels: seq<Json>, lang: string)
    requires labels != [] && PrefLabelsOf(labels).Ok?
    ensures PrefLabelsOf(labels[..|labels| - 1]).Ok?
    ensures KeptIn(labels[|labels| - 1], lang) ==>
              lang in PrefLabelsOf(labels).value.entries
              && PrefLabelsOf(labels).value.entries[lang] == ValueOf(labels[|labels| - 1])
    ensures !KeptIn(labels[|labels| - 1], lang) ==>
              (lang in PrefLabelsOf(labels).value.entries <==> lang in PrefLabelsOf(labels[..|labels| - 1]).value.entries)
              && (lang in PrefLabelsOf(labels).value.entries ==>
                    PrefLabelsOf(labels).value.entries[lang] == PrefLabelsOf(labels[..|labels| - 1]).value.entries[lang])
  { }

  /** A language has a preferred label exactly when some label is recorded in it. */
  lemma {:induction false} PrefLabelsHas(labels: seq<Json>, lang: string)
    requires PrefLabelsOf(labels).Ok?
    ensures lang in PrefLabelsOf(labels).value.entries <==> exists i :: 0 <= i < |labels| && KeptIn(labels[i], lang)
    decreases |labels|
  {
    if labels != [] {
      var init := labels[..|labels| - 1];
      PrefStep(labels, lang);
      PrefLabelsHas(init, lang);
      ExistsSplit(labels, init, x => KeptIn(x, lang));
    }
  }

  /** The preferred label of a language is the value of the last label recorded in it. */
  lemma {:induction false} PrefLabelsValue(labels: seq<Json>, lang: string, i: nat)
    requires PrefLabelsOf(labels).Ok?
    requires i < |labels| && KeptIn(labels[i], lang)
    requires forall j :: i < j < |labels| ==> !KeptIn(labels[j], lang)
    ensures lang in PrefLabelsOf(labels).value.entries
    ensures PrefLabelsOf(labels).value.entries[lang] == ValueOf(labels[i])
    decreases |labels|
  {
    var init := labels[..|labels| - 1];
    PrefStep(labels, lang);
    if i < |labels| - 1 {
      assert !KeptIn(labels[|labels| - 1], lang);
      assert init[i] == labels[i];
      AfterPrefix(labels, init, i, x => !KeptIn(x, lang));
      PrefLabelsValue(init, lang, i);
    }
  }

  /** A language has a preferred label exactly when some label is recorded in it,
      and the value is that of the last such label. */
  lemma PrefLabelsLast(labels: seq<Json>, lang: string)
    requires PrefLabelsOf(labels).Ok?
    ensures lang in PrefLabelsOf(labels).value.entries <==> exists i :: 0 <= i < |labels| && KeptIn(labels[i], lang)
    ensures forall i ::
              0 <= i < |labels| && KeptIn(labels[i], lang) && (forall j :: i < j < |labels| ==> !KeptIn(labels[j], lang))
              ==> PrefLabelsOf(labels).value.entries[lang] == ValueOf(labels[i])
  {
    PrefLabelsHas(labels, lang);
    forall i | 0 <= i < |labels| && KeptIn(labels[i], lang) && (forall j :: i < j < |labels| ==> !KeptIn(labels[j], lang))
      ensures PrefLabelsOf(labels).value.entries[lang] == ValueOf(labels[i])
    {
      PrefLabelsValue(labels, lang, i);
    }
  }

  // ----- Alternate labels: `alt_labels.setdefault(lang, []).append(value)` -----

  function AltLabelsOf(labels: seq<Json>): (r: Result<Dict<seq<Json>>, Fault>)
    ensures r.Ok? ==> Valid(r.value)
    decreases |labels|
  {
    if labels == [] then Ok(Empty())
    else
      var d :- AltLabelsOf(labels[..|labels| - 1]);
      var lbl := labels[|labels| - 1];
      if !lbl.Obj? then Err(Crash)
      else if !Kept(lbl) then Ok(d)
      else
        var lang :- KeyOf(LangOf(lbl));
        Ok(Append(d, lang, ValueOf(lbl)))
  }

  lemma {:induction false} AltErrPersists(labels: seq<Json>, n: nat)
    requires n <= |labels| && AltLabelsOf(labels[..n]).Err?
    ensures AltLabelsOf(labels) == AltLabelsOf(labels[..n])
    decreases |labels| - n
  {
    if n < |labels| {
      assert labels[..n + 1][..n] == labels[..n];
      AltErrPersists(labels, n + 1);
    } else {
      assert labels[..n] == labels;
    }
  }

  /** One more label read by the fold: either it raises, and so does the whole
      fold, or the fold goes on with the updated dict. */
  lemma AltNext(labels: seq<Json>, i: nat, d: Dict<seq<Json>>)
    requires i < |labels| && AltLabelsOf(labels[..i]) == Ok(d)
    ensures !labels[i].Obj? ==> AltLabelsOf(labels) == Err(Crash)
    ensures labels[i].Obj? && !Kept(labels[i]) ==> AltLabelsOf(labels[..i + 1]) == Ok(d)
    ensures labels[i].Obj? && Kept(labels[i]) && !LangOf(labels[i]).Str? ==>
      AltLabelsOf(labels) == Err(KeyOf(LangOf(labels[i])).error)
    ensures labels[i].Obj? && Kept(labels[i]) && LangOf(labels[i]).Str? ==>
      AltLabelsOf(labels[..i + 1]) == Ok(Append(d, LangOf(labels[i]).s, ValueOf(labels[i])))
  {
    assert labels[..i + 1][..i] == labels[..i];
    if AltLabelsOf(labels[..i + 1]).Err? {
      AltErrPersists(labels, i + 1);
    }
  }

  method ReadAltLabels(labels: seq<Json>) returns (r: Result<Dict<seq<Json>>, Fault>)
    ensures r == AltLabelsOf(labels)
  {
    var d := Empty();
    var i := 0;
    while i < |labels|
      invariant 0 <= i <= |labels|
      invariant AltLabelsOf(labels[..i]) == Ok(d)
    {
      AltNext(labels, i, d);
      var lbl := labels[i];
      if !lbl.Obj? {
        return Err(Crash);
      }
      var lang := GetOr(lbl.fields, "@language", Null);
      var value := GetOr(lbl.fields, "@value", Null);
      if Truthy(lang) && Truthy(value) {
        var key := KeyOf(lang);
        if key.Err? {
          return Err(key.error);
        }
        d := Append(d, key.value, value);
      }
      i := i + 1;
    }
    assert labels[..i] == labels;
    return Ok(d);
  }

  /** The values recorded under `lang`, in input order. */
  function ValuesIn(labels: seq<Json>, lang: string): seq<Json>
    decreases |labels|
  {
    if labels == [] then []
    else
      var lbl := labels[|labels| - 1];
      ValuesIn(labels[..|labels| - 1], lang) + (if KeptIn(lbl, lang) then [ValueOf(lbl)] else [])
  }

  lemma {:induction false} AltLabelsOk(labels: seq<Json>)
    ensures AltLabelsOf(labels).Ok? <==> forall i :: 0 <= i < |labels| ==> Readable(labels[i])
    decreases |labels|
  {
    if labels != [] {
      var init := labels[..|labels| - 1];
      AltLabelsOk(init);
      AllSplit(labels, init, x => Readable(x));
    }
  }

  /** Each language's list holds the values recorded in it, in input order; a
      language is present exactly when that list is not empty. */
  lemma {:induction false} AltLabelsCollect(labels: seq<Json>, lang: string)
    requires AltLabelsOf(labels).Ok?
    ensures ListAt(AltLabelsOf(labels).value, lang) == ValuesIn(labels, lang)
    ensures lang in AltLabelsOf(labels).value.entries <==> ValuesIn(labels, lang) != []
    decreases |labels|
  {
    if labels != [] {
      AltStep(labels, lang);
      AltLabelsCollect(labels[..|labels| - 1], lang);
    }
  }

  /** One step of the alternate-label fold, seen from language `lang`. */
  lemma AltStep(labels: seq<Json>, lang: string)
    requires labels != [] && AltLabelsOf(labels).Ok?
    ensures AltLabelsOf(labels[..|labels| - 1]).Ok?
    ensures KeptIn(labels[|labels| - 1], lang) ==>
              && lang in AltLabelsOf(labels).value.entries
              && ListAt(AltLabelsOf(labels).value, lang)
                 == ListAt(AltLabelsOf(labels[..|labels| - 1]).value, lang) + [ValueOf(labels[|labels| - 1])]
    ensures !KeptIn(labels[|labels| - 1], lang) ==>
              && (lang in AltLabelsOf(labels).value.entries <==> lang in AltLabelsOf(labels[..|labels| - 1]).value.entries)
              && ListAt(AltLabelsOf(labels).value, lang) == ListAt(AltLabelsOf(labels[..|labels| - 1]).value, lang)
  { }

  /** A value is recorded under `lang` exactly when some label is kept in that language. */
  lemma {:induction false} ValuesInMembers(labels: seq<Json>, lang: string)
    ensures ValuesIn(labels, lang) != [] <==> exists i :: 0 <= i < |labels| && KeptIn(labels[i], lang)
    decreases |labels|
  {
    if labels != [] {
      var init := labels[..|labels| - 1];
      ValuesInMembers(init, lang);
      ExistsSplit(labels, init, x => KeptIn(x, lang));
    }
  }

  // ----- One concept -----

  /** The label objects that `concept.get(key, [])` yields in a `for` loop. */
  function LabelItems(fields: seq<(string, Json)>, key: string): Result<seq<Json>, Fault> {
    Iterate(GetOr(fields, key, Arr([])))
  }

  /** The table entry read from one graph item (lines 70-110), or `None` for an
      item the selection skips. */
  function ConceptOf(item: Json): Read<Concept> {
    var keep :- Selects(item);
    if !keep then Ok(None)
    else
      var fields := item.fields;
      var prefItems :- LabelItems(fields, PrefLabelKey);
      var pref :- PrefLabelsOf(prefItems);
      var altItems :- LabelItems(fields, AltLabelKey);
      var alt :- AltLabelsOf(altItems);
      var broader :- BroaderOf(fields);
      var key :- KeyOf(Lookup(fields, IdKey).value);
      Ok(Some((key, Concept(key, pref, alt, broader))))
  }

  method ReadConcept(item: Json) returns (r: Read<Concept>)
    ensures r == ConceptOf(item)
  {
    var keep :- Selects(item);
    if !keep {
      return Ok(None);
    }
    var fields := item.fields;
    var prefItems :- LabelItems(fields, PrefLabelKey);
    var pref :- ReadPrefLabels(prefItems);
    var altItems :- LabelItems(fields, AltLabelKey);
    var alt :- ReadAltLabels(altItems);
    var broader :- BroaderOf(fields);
    var key :- KeyOf(Lookup(fields, IdKey).value);
    return Ok(Some((key, Concept(key, pref, alt, broader))));
  }

  /** A concept whose dicts are well formed: what the loader builds. */
  ghost predicate WellFormed(c: Concept) {
    Valid(c.prefLabels) && Valid(c.altLabels)
  }

  /** A table as the loader builds it: keys in order, each entry carrying its own key. */
  ghost predicate GoodTable(table: Dict<Concept>) {
    Valid(table) && forall k :: k in table.entries ==> table.entries[k].id == k && WellFormed(table.entries[k])
  }

  /** Reading an item follows the selection rule and yields a well-formed
      concept keyed by its `@id`. */
  lemma ConceptOfSelects(item: Json)
    ensures FollowsSelection(item, ConceptOf(item))
    ensures ConceptOf(item).Ok? && ConceptOf(item).value.Some? ==>
      var (k, c) := ConceptOf(item).value.value; c.id == k && WellFormed(c)
  {
  }

  // ----- The whole table -----

  /** `load_elsst_data` after `json.load` (lines 55-113). */
  function LoadOf(data: Json): Result<Dict<Concept>, Fault> {
    var graph :- GraphOf(data);
    TableOf(graph, ConceptOf)
  }

  method Load(data: Json) returns (r: Result<Dict<Concept>, Fault>)
    ensures r == LoadOf(data)
  {
    var graph :- ExtractGraph(data);
    var table := Empty();
    var i := 0;
    while i < |graph|
      invariant 0 <= i <= |graph|
      invariant TableOf(graph[..i], ConceptOf) == Ok(table)
    {
      TableNext(graph, ConceptOf, i, table);
      var c := ReadConcept(graph[i]);
      if c.Err? {
        return Err(c.error);
      }
      if c.value.Some? {
        table := Put(table, c.value.value.0, c.value.value.1);
      }
      i := i + 1;
    }
    assert graph[..i] == graph;
    return Ok(table);
  }

  /** The loaded table is keyed by the `@id`s of exactly the selected graph
      items, in order of first appearance. */
  lemma LoadedKeys(data: Json)
    requires LoadOf(data).Ok?
    ensures var graph := GraphOf(data).value; var t := LoadOf(data).value;
      && (forall k :: k in t.entries <==>
            exists i :: 0 <= i < |graph| && Selects(graph[i]) == Ok(true) && Lookup(graph[i].fields, IdKey) == Some(Str(k)))
      && t.keys == Ordering.FirstSeen(DefinedIds(graph, ConceptOf))
  {
    var graph := GraphOf(data).value;
    forall i | 0 <= i < |graph| ensures FollowsSelection(graph[i], ConceptOf(graph[i])) {
      ConceptOfSelects(graph[i]);
    }
    TableOfSelected(graph, ConceptOf);
    TableOrder(graph, ConceptOf);
  }

  /** Every entry of the loaded table carries its own key and well-formed label dicts. */
  lemma LoadedGood(data: Json)
    requires LoadOf(data).Ok?
    ensures GoodTable(LoadOf(data).value)
  {
    var graph := GraphOf(data).value;
    var t := LoadOf(data).value;
    TableEntriesRead(graph, ConceptOf);
    forall k | k in t.entries ensures t.entries[k].id == k && WellFormed(t.entries[k]) {
      var i :| 0 <= i < |graph| && ConceptOf(graph[i]) == Ok(Some((k, t.entries[k])));
      ConceptOfSelects(graph[i]);
    }
  }

  /** Each entry of the loaded table is the one read from the last item with its id. */
  lemma LoadedLastWins(data: Json, i: nat, k: string)
    requires LoadOf(data).Ok?
    requires i < |GraphOf(data).value| && Defines(ConceptOf(GraphOf(data).value[i]), k)
    requires forall j :: i < j < |GraphOf(data).value| ==> !Defines(ConceptOf(GraphOf(data).value[j]), k)
    ensures k in LoadOf(data).value.entries
    ensures LoadOf(data).value.entries[k] == ConceptOf(GraphOf(data).value[i]).value.value.1
  {
    TableLastWins(GraphOf(data).value, ConceptOf, i, k);
  }
}
