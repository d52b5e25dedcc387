/** The multilingual search index: for every language, the lower-cased
    labels of all concepts in that language, each paired with its concept's id. */
module SearchIndex {
  import opened Seqs
  import opened Results
  import opened Text
  import opened Json
  import opened Dicts
  import opened Multilingual

  /** `{lang: [(label.lower(), concept_id), ...]}` */
  type Index = Dict<seq<(string, string)>>

  /** Every listed value is a string, so `label.lower()` does not raise. */
  predicate AllText(vs: seq<Json>) {
    forall i :: 0 <= i < |vs| ==> vs[i].Str?
  }

  /** Every label of the concept is a string. */
  predicate ConceptText(c: Concept) {
    && (forall l :: l in c.prefLabels.entries ==> c.prefLabels.entries[l].Str?)
    && (forall l :: l in c.altLabels.entries ==> AllText(c.altLabels.entries[l]))
  }

  /** Every concept of the table has only string labels. */
  ghost predicate IndexableTable(table: Dict<Concept>) {
    forall k :: k in table.entries ==> ConceptText(table.entries[k])
  }

  /** Every language listed in the index has at least one entry. */
  ghost predicate NoEmptyLists(d: Index) {
    forall k :: k in d.entries ==> d.entries[k] != []
  }

  /** The labels of a concept in one language: its preferred label first, then
      its alternate labels in order. */
  function LabelsIn(c: Concept, lang: string): (r: seq<Json>)
    ensures ConceptText(c) ==> AllText(r)
  {
    (if lang in c.prefLabels.entries then [c.prefLabels.entries[lang]] else []) + ListAt(c.altLabels, lang)
  }

  /** The index entries for the values `vs` of concept `id`. */
  function Lowered(vs: seq<Json>, id: string): (r: seq<(string, string)>)
    requires AllText(vs)
    ensures |r| == |vs|
    decreases |vs|
  {
    if vs == [] then []
    else Lowered(vs[..|vs| - 1], id) + [(Lower(vs[|vs| - 1].s), id)]
  }

  /** Each value gives the entry of its lower-cased text, in place. */
  lemma {:induction false} LoweredAt(vs: seq<Json>, id: string, i: nat)
    requires AllText(vs) && i < |vs|
    ensures Lowered(vs, id)[i] == (Lower(vs[i].s), id)
    decreases |vs|
  {
    if i < |vs| - 1 {
      LoweredAt(vs[..|vs| - 1], id, i);
    }
  }

  /** Reference definition: the entries of language `lang` contributed by the
      concepts `ids`, in the order the table lists them. */
  function IndexEntries(table: Dict<Concept>, ids: seq<string>, lang: string): seq<(string, string)>
    requires forall i :: 0 <= i < |ids| ==> ids[i] in table.entries && ConceptText(table.entries[ids[i]])
    decreases |ids|
  {
    if ids == [] then []
    else
      var id := ids[|ids| - 1];
      IndexEntries(table, ids[..|ids| - 1], lang) + Lowered(LabelsIn(table.entries[id], lang), id)
  }

  // ----- `for label in labels: search_index.setdefault(lang, []).append(...)` -----

  function AddValues(index: Index, lang: string, vs: seq<Json>, id: string): (r: Result<Index, Fault>)
    requires Valid(index)
    ensures r.Ok? ==> Valid(r.value)
    decreases |vs|
  {
    if vs == [] then Ok(index)
    else
      var d :- AddValues(index, lang, vs[..|vs| - 1], id);
      var v := vs[|vs| - 1];
      if !v.Str? then Err(Crash) else Ok(Append(d, lang, (Lower(v.s), id)))
  }

  lemma {:induction false} AddValuesErrPersists(index: Index, lang: string, vs: seq<Json>, id: string, n: nat)
    requires Valid(index) && n <= |vs| && AddValues(index, lang, vs[..n], id).Err?
    ensures AddValues(index, lang, vs, id) == AddValues(index, lang, vs[..n], id)
    decreases |vs| - n
  {
    if n < |vs| {
      assert vs[..n + 1][..n] == vs[..n];
      AddValuesErrPersists(index, lang, vs, id, n + 1);
    } else {
      assert vs[..n] == vs;
    }
  }

  method AddLabelValues(index: Index, lang: string, vs: seq<Json>, id: string) returns (r: Result<Index, Fault>)
    requires Valid(index)
    ensures r == AddValues(index, lang, vs, id)
  {
    var d := index;
    var i := 0;
    while i < |vs|
      invariant 0 <= i <= |vs|
      invariant AddValues(index, lang, vs[..i], id) == Ok(d)
    {
      assert vs[..i + 1][..i] == vs[..i];
      if !vs[i].Str? {
        AddValuesErrPersists(index, lang, vs, id, i + 1);
        return Err(Crash);
      }
      d := Append(d, lang, (Lower(vs[i].s), id));
      i := i + 1;
    }
    assert vs[..i] == vs;
    return Ok(d);
  }

  /** Adding the values of one language raises exactly when one is not a string. */
  lemma {:induction false} AddValuesOk(index: Index, lang: string, vs: seq<Json>, id: string)
    requires Valid(index)
    ensures AddValues(index, lang, vs, id).Ok? <==> AllText(vs)
    decreases |vs|
  {
    if vs != [] {
      var init := vs[..|vs| - 1];
      AddValuesOk(index, lang, init, id);
      AllTextSplit(vs);
    }
  }

  lemma AllTextSplit(vs: seq<Json>)
    requires vs != []
    ensures AllText(vs) <==> AllText(vs[..|vs| - 1]) && vs[|vs| - 1].Str?
  {
    var init := vs[..|vs| - 1];
    if !AllText(vs) {
      var i :| 0 <= i < |vs| && !vs[i].Str?;
      if i < |init| {
        assert init[i] == vs[i];
      }
    } else {
      assert forall i :: 0 <= i < |init| ==> init[i] == vs[i];
    }
  }

  /** The last value of a successful run is a string whose entry is appended. */
  lemma AddValuesLast(index: Index, lang: string, vs: seq<Json>, id: string)
    requires Valid(index) && vs != [] && AddValues(index, lang, vs, id).Ok?
    ensures AddValues(index, lang, vs[..|vs| - 1], id).Ok? && vs[|vs| - 1].Str?
    ensures AddValues(index, lang, vs, id).value
      == Append(AddValues(index, lang, vs[..|vs| - 1], id).value, lang, (Lower(vs[|vs| - 1].s), id))
  {
  }

  /** The entries of the values go at the end of that language's list, no other
      list changes, and the language is listed once it has an entry. */
  lemma {:induction false} AddValuesEffect(index: Index, lang: string, vs: seq<Json>, id: string, l: string)
    requires Valid(index) && AddValues(index, lang, vs, id).Ok?
    ensures AllText(vs)
    ensures ListAt(AddValues(index, lang, vs, id).value, l) == ListAt(index, l) + (if l == lang then Lowered(vs, id) else [])
    ensures l in AddValues(index, lang, vs, id).value.entries <==> l in index.entries || (l == lang && vs != [])
    decreases |vs|
  {
    if vs != [] {
      var init := vs[..|vs| - 1];
      AddValuesLast(index, lang, vs, id);
      AddValuesEffect(index, lang, init, id, l);
      AllTextSplit(vs);
      var v := vs[|vs| - 1];
      assert Lowered(vs, id) == Lowered(init, id) + [(Lower(v.s), id)];
    }
  }

  /** A single value: its entry is appended, or the string method raises. */
  lemma AddOne(index: Index, lang: string, v: Json, id: string)
    requires Valid(index)
    ensures AddValues(index, lang, [v], id) == if v.Str? then Ok(Append(index, lang, (Lower(v.s), id))) else Err(Crash)
    ensures v.Str? ==> Lowered([v], id) == [(Lower(v.s), id)]
  {
    assert [v][..0] == [];
  }

  /** No list of the index becomes empty. */
  lemma {:induction false} AddValuesNoEmpty(index: Index, lang: string, vs: seq<Json>, id: string)
    requires Valid(index) && AddValues(index, lang, vs, id).Ok? && NoEmptyLists(index)
    ensures NoEmptyLists(AddValues(index, lang, vs, id).value)
    decreases |vs|
  {
    if vs != [] {
      AddValuesNoEmpty(index, lang, vs[..|vs| - 1], id);
    }
  }

  // ----- `for lang, label in data['prefLabels'].items(): ...` -----

  function AddPrefs(index: Index, prefs: Dict<Json>, langs: seq<string>, id: string): (r: Result<Index, Fault>)
    requires Valid(index) && forall i :: 0 <= i < |langs| ==> langs[i] in prefs.entries
    ensures r.Ok? ==> Valid(r.value)
    decreases |langs|
  {
    if langs == [] then Ok(index)
    else
      var d :- AddPrefs(index, prefs, langs[..|langs| - 1], id);
      AddValues(d, langs[|langs| - 1], [prefs.entries[langs[|langs| - 1]]], id)
  }

  lemma {:induction false} AddPrefsErrPersists(index: Index, prefs: Dict<Json>, langs: seq<string>, id: string, n: nat)
    requires Valid(index) && forall i :: 0 <= i < |langs| ==> langs[i] in prefs.entries
    requires n <= |langs| && AddPrefs(index, prefs, langs[..n], id).Err?
    ensures AddPrefs(index, prefs, langs, id) == AddPrefs(index, prefs, langs[..n], id)
    decreases |langs| - n
  {
    if n < |langs| {
      assert langs[..n + 1][..n] == langs[..n];
      AddPrefsErrPersists(index, prefs, langs, id, n + 1);
    } else {
      assert langs[..n] == langs;
    }
  }

  /** One more language raises exactly when its preferred label is not a string. */
  lemma AddPrefsStep(index: Index, prefs: Dict<Json>, langs: seq<string>, id: string)
    requires Valid(index) && forall i :: 0 <= i < |langs| ==> langs[i] in prefs.entries
    requires langs != []
    ensures AddPrefs(index, prefs, langs, id).Ok? <==>
      AddPrefs(index, prefs, langs[..|langs| - 1], id).Ok? && prefs.entries[langs[|langs| - 1]].Str?
  {
    var d := AddPrefs(index, prefs, langs[..|langs| - 1], id);
    if d.Ok? {
      AddOne(d.value, langs[|langs| - 1], prefs.entries[langs[|langs| - 1]], id);
    }
  }

  /** The preferred labels raise exactly when one is not a string. */
  lemma {:induction false} AddPrefsOk(index: Index, prefs: Dict<Json>, langs: seq<string>, id: string)
    requires Valid(index) && forall i :: 0 <= i < |langs| ==> langs[i] in prefs.entries
    ensures AddPrefs(index, prefs, langs, id).Ok? <==> forall i :: 0 <= i < |langs| ==> prefs.entries[langs[i]].Str?
    decreases |langs|
  {
    if langs != [] {
      var init := langs[..|langs| - 1];
      AddPrefsOk(index, prefs, init, id);
      AddPrefsStep(index, prefs, langs, id);
      AllSplit(langs, init, k => k in prefs.entries && prefs.entries[k].Str?);
    }
  }

  /** Each language's preferred label goes at the end of that language's list. */
  lemma {:induction false} AddPrefsEffect(index: Index, prefs: Dict<Json>, langs: seq<string>, id: string, l: string)
    requires Valid(index) && forall i :: 0 <= i < |langs| ==> langs[i] in prefs.entries
    requires forall i, j :: 0 <= i < j < |langs| ==> langs[i] != langs[j]
    requires AddPrefs(index, prefs, langs, id).Ok?
    ensures l in langs ==> prefs.entries[l].Str?
    ensures ListAt(AddPrefs(index, prefs, langs, id).value, l)
      == ListAt(index, l) + (if l in langs then [(Lower(prefs.entries[l].s), id)] else [])
    ensures l in AddPrefs(index, prefs, langs, id).value.entries <==> l in index.entries || l in langs
    decreases |langs|
  {
    if langs != [] {
      var init := langs[..|langs| - 1];
      var last := langs[|langs| - 1];
      AllSplit(langs, init, k => k in prefs.entries);
      DistinctPrefix(langs, init);
      AddPrefsLast(index, prefs, langs, id);
      AddPrefsEffect(index, prefs, init, id, l);
      InSplit(langs, init, l);
    }
  }

  /** The last language of a successful run has a string label, which is appended. */
  lemma AddPrefsLast(index: Index, prefs: Dict<Json>, langs: seq<string>, id: string)
    requires Valid(index) && forall i :: 0 <= i < |langs| ==> langs[i] in prefs.entries
    requires langs != [] && AddPrefs(index, prefs, langs, id).Ok?
    ensures AddPrefs(index, prefs, langs[..|langs| - 1], id).Ok? && prefs.entries[langs[|langs| - 1]].Str?
    ensures AddPrefs(index, prefs, langs, id).value
      == Append(AddPrefs(index, prefs, langs[..|langs| - 1], id).value, langs[|langs| - 1],
                (Lower(prefs.entries[langs[|langs| - 1]].s), id))
  {
    var d := AddPrefs(index, prefs, langs[..|langs| - 1], id);
    AddOne(d.value, langs[|langs| - 1], prefs.entries[langs[|langs| - 1]], id);
  }

  /** No list of the index becomes empty. */
  lemma {:induction false} AddPrefsNoEmpty(index: Index, prefs: Dict<Json>, langs: seq<string>, id: string)
    requires Valid(index) && forall i :: 0 <= i < |langs| ==> langs[i] in prefs.entries
    requires AddPrefs(index, prefs, langs, id).Ok? && NoEmptyLists(index)
    ensures NoEmptyLists(AddPrefs(index, prefs, langs, id).value)
    decreases |langs|
  {
    if langs != [] {
      var init := langs[..|langs| - 1];
      AddPrefsNoEmpty(index, prefs, init, id);
      AddValuesNoEmpty(AddPrefs(index, prefs, init, id).value, langs[|langs| - 1], [prefs.entries[langs[|langs| - 1]]], id);
    }
  }

  // ----- `for lang, labels in data['altLabels'].items(): for label in labels: ...` -----

  function AddAlts(index: Index, alts: Dict<seq<Json>>, langs: seq<string>, id: string): (r: Result<Index, Fault>)
    requires Valid(index) && forall i :: 0 <= i < |langs| ==> langs[i] in alts.entries
    ensures r.Ok? ==> Valid(r.value)
    decreases |langs|
  {
    if langs == [] then Ok(index)
    else
      var d :- AddAlts(index, alts, langs[..|langs| - 1], id);
      AddValues(d, langs[|langs| - 1], alts.entries[langs[|langs| - 1]], id)
  }

  lemma {:induction false} AddAltsErrPersists(index: Index, alts: Dict<seq<Json>>, langs: seq<string>, id: string, n: nat)
    requires Valid(index) && forall i :: 0 <= i < |langs| ==> langs[i] in alts.entries
    requires n <= |langs| && AddAlts(index, alts, langs[..n], id).Err?
    ensures AddAlts(index, alts, langs, id) == AddAlts(index, alts, langs[..n], id)
    decreases |langs| - n
  {
    if n < |langs| {
      assert langs[..n + 1][..n] == langs[..n];
      AddAltsErrPersists(index, alts, langs, id, n + 1);
    } else {
      assert langs[..n] == langs;
    }
  }

  /** The alternate labels raise exactly when one is not a string. */
  lemma {:induction false} AddAltsOk(index: Index, alts: Dict<seq<Json>>, langs: seq<string>, id: string)
    requires Valid(index) && forall i :: 0 <= i < |langs| ==> langs[i] in alts.entries
    ensures AddAlts(index, alts, langs, id).Ok? <==> forall i :: 0 <= i < |langs| ==> AllText(alts.entries[langs[i]])
    decreases |langs|
  {
    if langs != [] {
      var init := langs[..|langs| - 1];
      AddAltsOk(index, alts, init, id);
      AllSplit(langs, init, k => k in alts.entries && AllText(alts.entries[k]));
      var d := AddAlts(index, alts, init, id);
      if d.Ok? {
        AddValuesOk(d.value, langs[|langs| - 1], alts.entries[langs[|langs| - 1]], id);
      }
    }
  }

  /** Each language's alternate labels go, in order, at the end of that language's list. */
  lemma AddAltsEffect(index: Index, alts: Dict<seq<Json>>, langs: seq<string>, id: string, l: string)
    requires Valid(index) && forall i :: 0 <= i < |langs| ==> langs[i] in alts.entries
    requires forall i, j :: 0 <= i < j < |langs| ==> langs[i] != langs[j]
    requires AddAlts(index, alts, langs, id).Ok?
    ensures l in langs ==> AllText(alts.entries[l])
    ensures ListAt(AddAlts(index, alts, langs, id).value, l)
      == ListAt(index, l) + (if l in langs then Lowered(alts.entries[l], id) else [])
    ensures l in AddAlts(index, alts, langs, id).value.entries <==> l in index.entries || (l in langs && alts.entries[l] != [])
  {
    AddAltsList(index, alts, langs, id, l);
    AddAltsKeys(index, alts, langs, id, l);
  }

  lemma {:induction false} AddAltsList(index: Index, alts: Dict<seq<Json>>, langs: seq<string>, id: string, l: string)
    requires Valid(index) && forall i :: 0 <= i < |langs| ==> langs[i] in alts.entries
    requires forall i, j :: 0 <= i < j < |langs| ==> langs[i] != langs[j]
    requires AddAlts(index, alts, langs, id).Ok?
    ensures l in langs ==> AllText(alts.entries[l])
    ensures ListAt(AddAlts(index, alts, langs, id).value, l)
      == ListAt(index, l) + (if l in langs then Lowered(alts.entries[l], id) else [])
    decreases |langs|
  {
    if langs != [] {
      var init := langs[..|langs| - 1];
      var last := langs[|langs| - 1];
      AllSplit(langs, init, k => k in alts.entries);
      DistinctPrefix(langs, init);
      AddAltsLast(index, alts, langs, id);
      AddAltsList(index, alts, init, id, l);
      var d := AddAlts(index, alts, init, id).value;
      AddValuesEffect(d, last, alts.entries[last], id, l);
      InSplit(langs, init, l);
      if l == last {
        assert ListAt(d, l) == ListAt(index, l);
      } else {
        assert ListAt(AddAlts(index, alts, langs, id).value, l) == ListAt(d, l);
      }
    }
  }

  lemma {:induction false} AddAltsKeys(index: Index, alts: Dict<seq<Json>>, langs: seq<string>, id: string, l: string)
    requires Valid(index) && forall i :: 0 <= i < |langs| ==> langs[i] in alts.entries
    requires AddAlts(index, alts, langs, id).Ok?
    ensures l in AddAlts(index, alts, langs, id).value.entries <==> l in index.entries || (l in langs && alts.entries[l] != [])
    decreases |langs|
  {
    if langs != [] {
      var init := langs[..|langs| - 1];
      var last := langs[|langs| - 1];
      AllSplit(langs, init, k => k in alts.entries);
      AddAltsLast(index, alts, langs, id);
      AddAltsKeys(index, alts, init, id, l);
      var d := AddAlts(index, alts, init, id).value;
      AddValuesEffect(d, last, alts.entries[last], id, l);
      InSplit(langs, init, l);
    }
  }

  /** The last language of a successful run adds its labels to the run before it. */
  lemma AddAltsLast(index: Index, alts: Dict<seq<Json>>, langs: seq<string>, id: string)
    requires Valid(index) && forall i :: 0 <= i < |langs| ==> langs[i] in alts.entries
    requires langs != [] && AddAlts(index, alts, langs, id).Ok?
    ensures AddAlts(index, alts, langs[..|langs| - 1], id).Ok?
    ensures AddAlts(index, alts, langs, id)
      == AddValues(AddAlts(index, alts, langs[..|langs| - 1], id).value, langs[|langs| - 1], alts.entries[langs[|langs| - 1]], id)
  { }

  /** No list of the index becomes empty. */
  lemma {:induction false} AddAltsNoEmpty(index: Index, alts: Dict<seq<Json>>, langs: seq<string>, id: string)
    requires Valid(index) && forall i :: 0 <= i < |langs| ==> langs[i] in alts.entries
    requires AddAlts(index, alts, langs, id).Ok? && NoEmptyLists(index)
    ensures NoEmptyLists(AddAlts(index, alts, langs, id).value)
    decreases |langs|
  {
    if langs != [] {
      var init := langs[..|langs| - 1];
      AddAltsNoEmpty(index, alts, init, id);
      AddValuesNoEmpty(AddAlts(index, alts, init, id).value, langs[|langs| - 1], alts.entries[langs[|langs| - 1]], id);
    }
  }

  // ----- One concept, then the whole table -----

  /** The entries of a concatenation are the entries of its parts. */
  lemma {:induction false} LoweredConcat(a: seq<Json>, b: seq<Json>, id: string)
    requires AllText(a) && AllText(b)
    ensures AllText(a + b) && Lowered(a + b, id) == Lowered(a, id) + Lowered(b, id)
    decreases |b|
  {
    if b != [] {
      var bi := b[..|b| - 1];
      assert (a + b)[..|a + b| - 1] == a + bi;
      LoweredConcat(a, bi, id);
    } else {
      assert a + b == a;
    }
  }

  /** The entries one concept adds: preferred labels first, then alternate labels. */
  function AddConcept(index: Index, id: string, c: Concept): (r: Result<Index, Fault>)
    requires Valid(index) && WellFormed(c)
    ensures r.Ok? ==> Valid(r.value)
  {
    var d :- AddPrefs(index, c.prefLabels, c.prefLabels.keys, id);
    AddAlts(d, c.altLabels, c.altLabels.keys, id)
  }

  /** Adding a concept raises exactly when one of its labels is not a string. */
  lemma AddConceptOk(index: Index, id: string, c: Concept)
    requires Valid(index) && WellFormed(c)
    ensures AddConcept(index, id, c).Ok? <==> ConceptText(c)
  {
    AddPrefsOk(index, c.prefLabels, c.prefLabels.keys, id);
    var d := AddPrefs(index, c.prefLabels, c.prefLabels.keys, id);
    if d.Ok? {
      AddAltsOk(d.value, c.altLabels, c.altLabels.keys, id);
    }
  }

  /** A concept's labels in each language go at the end of that language's list. */
  lemma AddConceptEffect(index: Index, id: string, c: Concept, l: string)
    requires Valid(index) && WellFormed(c) && AddConcept(index, id, c).Ok?
    ensures ConceptText(c)
    ensures ListAt(AddConcept(index, id, c).value, l) == ListAt(index, l) + Lowered(LabelsIn(c, l), id)
    ensures l in AddConcept(index, id, c).value.entries <==> l in index.entries || LabelsIn(c, l) != []
  {
    AddConceptOk(index, id, c);
    AddConceptList(index, id, c, l);
    AddConceptKeys(index, id, c, l);
  }

  /** Adding a concept is adding its preferred labels and then its alternate ones. */
  lemma AddConceptParts(index: Index, id: string, c: Concept)
    requires Valid(index) && WellFormed(c) && AddConcept(index, id, c).Ok?
    ensures AddPrefs(index, c.prefLabels, c.prefLabels.keys, id).Ok?
    ensures AddConcept(index, id, c) == AddAlts(AddPrefs(index, c.prefLabels, c.prefLabels.keys, id).value, c.altLabels, c.altLabels.keys, id)
  { }

  lemma AddConceptList(index: Index, id: string, c: Concept, l: string)
    requires Valid(index) && WellFormed(c) && AddConcept(index, id, c).Ok? && ConceptText(c)
    ensures ListAt(AddConcept(index, id, c).value, l) == ListAt(index, l) + Lowered(LabelsIn(c, l), id)
  {
    AddConceptParts(index, id, c);
    var d := AddPrefs(index, c.prefLabels, c.prefLabels.keys, id).value;
    var pref := if l in c.prefLabels.entries then [c.prefLabels.entries[l]] else [];
    var alt := ListAt(c.altLabels, l);
    PrefsPart(index, id, c, l);
    AltsPart(d, id, c, l);
    LoweredConcat(pref, alt, id);
    AppendedTwice(ListAt(index, l), Lowered(pref, id), Lowered(alt, id),
      ListAt(d, l), ListAt(AddConcept(index, id, c).value, l), Lowered(LabelsIn(c, l), id));
  }

  /** The preferred label of a concept in `l`, if any, goes at the end of the list of `l`. */
  lemma PrefsPart(index: Index, id: string, c: Concept, l: string)
    requires Valid(index) && WellFormed(c) && ConceptText(c)
    requires AddPrefs(index, c.prefLabels, c.prefLabels.keys, id).Ok?
    ensures var pref := if l in c.prefLabels.entries then [c.prefLabels.entries[l]] else [];
      ListAt(AddPrefs(index, c.prefLabels, c.prefLabels.keys, id).value, l) == ListAt(index, l) + Lowered(pref, id)
  {
    AddPrefsEffect(index, c.prefLabels, c.prefLabels.keys, id, l);
    if l in c.prefLabels.entries {
      AddOne(index, l, c.prefLabels.entries[l], id);
    }
  }

  /** The alternate labels of a concept in `l` go at the end of the list of `l`. */
  lemma AltsPart(index: Index, id: string, c: Concept, l: string)
    requires Valid(index) && WellFormed(c) && ConceptText(c)
    requires AddAlts(index, c.altLabels, c.altLabels.keys, id).Ok?
    ensures ListAt(AddAlts(index, c.altLabels, c.altLabels.keys, id).value, l) == ListAt(index, l) + Lowered(ListAt(c.altLabels, l), id)
  {
    AddAltsList(index, c.altLabels, c.altLabels.keys, id, l);
  }

  lemma AddConceptKeys(index: Index, id: string, c: Concept, l: string)
    requires Valid(index) && WellFormed(c) && AddConcept(index, id, c).Ok?
    ensures l in AddConcept(index, id, c).value.entries <==> l in index.entries || LabelsIn(c, l) != []
  {
    AddConceptParts(index, id, c);
    var d := AddPrefs(index, c.prefLabels, c.prefLabels.keys, id).value;
    assert l in d.entries <==> l in index.entries || l in c.prefLabels.entries by {
      AddPrefsEffect(index, c.prefLabels, c.prefLabels.keys, id, l);
    }
    assert l in AddConcept(index, id, c).value.entries <==> l in d.entries || ListAt(c.altLabels, l) != [] by {
      AddAltsKeys(d, c.altLabels, c.altLabels.keys, id, l);
    }
  }

  /** Appending `p` and then `q` appends `p + q`. */
  lemma AppendedTwice<T>(x: seq<T>, p: seq<T>, q: seq<T>, mid: seq<T>, last: seq<T>, both: seq<T>)
    requires mid == x + p && last == mid + q && both == p + q
    ensures last == x + both
  {
    calc {
      last;
      (x + p) + q;
      x + (p + q);
    }
  }

  lemma AddConceptNoEmpty(index: Index, id: string, c: Concept)
    requires Valid(index) && WellFormed(c) && AddConcept(index, id, c).Ok? && NoEmptyLists(index)
    ensures NoEmptyLists(AddConcept(index, id, c).value)
  {
    AddPrefsNoEmpty(index, c.prefLabels, c.prefLabels.keys, id);
    AddAltsNoEmpty(AddPrefs(index, c.prefLabels, c.prefLabels.keys, id).value, c.altLabels, c.altLabels.keys, id);
  }

  /** `build_search_index` over the concepts `ids` of the table, in order. */
  function IndexOf(table: Dict<Concept>, ids: seq<string>): (r: Result<Index, Fault>)
    requires forall i :: 0 <= i < |ids| ==> ids[i] in table.entries && WellFormed(table.entries[ids[i]])
    ensures r.Ok? ==> Valid(r.value)
    decreases |ids|
  {
    if ids == [] then Ok(Empty())
    else
      var d :- IndexOf(table, ids[..|ids| - 1]);
      AddConcept(d, ids[|ids| - 1], table.entries[ids[|ids| - 1]])
  }

  lemma {:induction false} IndexErrPersists(table: Dict<Concept>, ids: seq<string>, n: nat)
    requires forall i :: 0 <= i < |ids| ==> ids[i] in table.entries && WellFormed(table.entries[ids[i]])
    requires n <= |ids| && IndexOf(table, ids[..n]).Err?
    ensures IndexOf(table, ids) == IndexOf(table, ids[..n])
    decreases |ids| - n
  {
    if n < |ids| {
      assert ids[..n + 1][..n] == ids[..n];
      IndexErrPersists(table, ids, n + 1);
    } else {
      assert ids[..n] == ids;
    }
  }

  /** Indexing raises exactly when some concept has a label that is not a string. */
  lemma {:induction false} IndexOk(table: Dict<Concept>, ids: seq<string>)
    requires forall i :: 0 <= i < |ids| ==> ids[i] in table.entries && WellFormed(table.entries[ids[i]])
    ensures IndexOf(table, ids).Ok? <==> forall i :: 0 <= i < |ids| ==> ConceptText(table.entries[ids[i]])
    decreases |ids|
  {
    if ids != [] {
      var init := ids[..|ids| - 1];
      IndexOk(table, init);
      AllSplit(ids, init, k => k in table.entries && WellFormed(table.entries[k]));
      AllSplit(ids, init, k => k in table.entries && ConceptText(table.entries[k]));
      var d := IndexOf(table, init);
      if d.Ok? {
        AddConceptOk(d.value, ids[|ids| - 1], table.entries[ids[|ids| - 1]]);
      }
    }
  }

  /** Every language's list is the reference list of its entries, and a
      language is listed exactly when it has entries. */
  lemma {:induction false} IndexLists(table: Dict<Concept>, ids: seq<string>, l: string)
    requires forall i :: 0 <= i < |ids| ==> ids[i] in table.entries && WellFormed(table.entries[ids[i]])
    requires IndexOf(table, ids).Ok?
    ensures forall i :: 0 <= i < |ids| ==> ConceptText(table.entries[ids[i]])
    ensures ListAt(IndexOf(table, ids).value, l) == IndexEntries(table, ids, l)
    ensures l in IndexOf(table, ids).value.entries <==> IndexEntries(table, ids, l) != []
    ensures NoEmptyLists(IndexOf(table, ids).value)
    decreases |ids|
  {
    IndexOk(table, ids);
    if ids != [] {
      var init := ids[..|ids| - 1];
      var id := ids[|ids| - 1];
      AllSplit(ids, init, k => k in table.entries && WellFormed(table.entries[k]));
      IndexLists(table, init, l);
      var d := IndexOf(table, init).value;
      AddConceptEffect(d, id, table.entries[id], l);
      AddConceptNoEmpty(d, id, table.entries[id]);
    }
  }

  // ----- The loops -----

  method IndexPrefs(index: Index, id: string, prefs: Dict<Json>) returns (r: Result<Index, Fault>)
    requires Valid(index) && Valid(prefs)
    ensures r == AddPrefs(index, prefs, prefs.keys, id)
  {
    var d := index;
    var i := 0;
    while i < |prefs.keys|
      invariant 0 <= i <= |prefs.keys|
      invariant AddPrefs(index, prefs, prefs.keys[..i], id) == Ok(d)
    {
      var lang := prefs.keys[i];
      var v := prefs.entries[lang];
      assert prefs.keys[..i + 1][..i] == prefs.keys[..i];
      AddOne(d, lang, v, id);
      if !v.Str? {
        AddPrefsErrPersists(index, prefs, prefs.keys, id, i + 1);
        return Err(Crash);
      }
      d := Append(d, lang, (Lower(v.s), id));
      i := i + 1;
    }
    assert prefs.keys[..i] == prefs.keys;
    return Ok(d);
  }

  method IndexAlts(index: Index, id: string, alts: Dict<seq<Json>>) returns (r: Result<Index, Fault>)
    requires Valid(index) && Valid(alts)
    ensures r == AddAlts(index, alts, alts.keys, id)
  {
    var d := index;
    var i := 0;
    while i < |alts.keys|
      invariant 0 <= i <= |alts.keys|
      invariant AddAlts(index, alts, alts.keys[..i], id) == Ok(d)
    {
      var lang := alts.keys[i];
      assert alts.keys[..i + 1][..i] == alts.keys[..i];
      var next := AddLabelValues(d, lang, alts.entries[lang], id);
      if next.Err? {
        AddAltsErrPersists(index, alts, alts.keys, id, i + 1);
        return next;
      }
      d := next.value;
      i := i + 1;
    }
    assert alts.keys[..i] == alts.keys;
    return Ok(d);
  }

  method IndexConcept(index: Index, id: string, c: Concept) returns (r: Result<Index, Fault>)
    requires Valid(index) && WellFormed(c)
    ensures r == AddConcept(index, id, c)
  {
    var d :- IndexPrefs(index, id, c.prefLabels);
    r := IndexAlts(d, id, c.altLabels);
  }

  /** `build_search_index(processed_data)` (lines 116-144). */
  method BuildSearchIndex(table: Dict<Concept>) returns (r: Result<Index, Fault>)
    requires GoodTable(table)
    ensures r == IndexOf(table, table.keys)
  {
    var d := Empty();
    var i := 0;
    while i < |table.keys|
      invariant 0 <= i <= |table.keys|
      invariant IndexOf(table, table.keys[..i]) == Ok(d)
    {
      var id := table.keys[i];
      assert table.keys[..i + 1][..i] == table.keys[..i];
      var next := IndexConcept(d, id, table.entries[id]);
      if next.Err? {
        IndexErrPersists(table, table.keys, i + 1);
        return next;
      }
      d := next.value;
      i := i + 1;
    }
    assert table.keys[..i] == table.keys;
    return Ok(d);
  }

  // ----- What the index holds -----

  /** The index of a loaded table: it is built exactly when every label is a
      string, each language's list is the reference list, and the languages
      listed are those with at least one label. */
  lemma SearchIndexOf(table: Dict<Concept>, l: string)
    requires GoodTable(table)
    ensures IndexOf(table, table.keys).Ok? <==> IndexableTable(table)
    ensures IndexableTable(table) ==>
      && ListAt(IndexOf(table, table.keys).value, l) == IndexEntries(table, table.keys, l)
      && (l in IndexOf(table, table.keys).value.entries <==> IndexEntries(table, table.keys, l) != [])
  {
    IndexOk(table, table.keys);
    if IndexableTable(table) {
      IndexLists(table, table.keys, l);
    }
  }

  /** An entry is in the reference list of a language exactly when its concept is
      among `ids` and some label of that concept in that language lower-cases to it. */
  lemma {:induction false} IndexMembership(table: Dict<Concept>, ids: seq<string>, l: string, text: string, id: string)
    requires forall i :: 0 <= i < |ids| ==> ids[i] in table.entries && ConceptText(table.entries[ids[i]])
    ensures (text, id) in IndexEntries(table, ids, l) <==>
      id in ids && exists v :: v in LabelsIn(table.entries[id], l) && v.Str? && Lower(v.s) == text
    decreases |ids|
  {
    if ids != [] {
      var init := ids[..|ids| - 1];
      var last := ids[|ids| - 1];
      AllSplit(ids, init, k => k in table.entries && ConceptText(table.entries[k]));
      IndexMembership(table, init, l, text, id);
      LoweredMembership(LabelsIn(table.entries[last], l), last, text, id);
      InSplit(ids, init, id);
    }
  }

  /** The entries of one concept are the lower-cased texts of its values. */
  lemma LoweredMembership(vs: seq<Json>, last: string, text: string, id: string)
    requires AllText(vs)
    ensures (text, id) in Lowered(vs, last) <==>
      id == last && exists v :: v in vs && v.Str? && Lower(v.s) == text
  {
    if (text, id) in Lowered(vs, last) {
      var i :| 0 <= i < |Lowered(vs, last)| && Lowered(vs, last)[i] == (text, id);
      LoweredAt(vs, last, i);
      assert vs[i] in vs;
    }
    if id == last && exists v :: v in vs && v.Str? && Lower(v.s) == text {
      var v :| v in vs && v.Str? && Lower(v.s) == text;
      var i :| 0 <= i < |vs| && vs[i] == v;
      LoweredAt(vs, last, i);
      assert Lowered(vs, last)[i] == (text, id);
    }
  }
}
