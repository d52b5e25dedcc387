/** The two endpoints of the multilingual service: one topic by its
    identifier, and topic suggestions for a search term in one language. */
module Topics {
  import opened Results
  import opened Seqs
  import opened Text
  import opened Json
  import opened Dicts
  import Ordering
  import opened Multilingual
  import opened SearchIndex

  const BaseUrl := "https://w3id.org/skg-if/sandbox/cessda-elsst/"
  const ContextUrl := "https://w3id.org/skg-if/context/1.0.1/skg-if.json"
  const LabelsParam := "cf.search.labels"
  const LanguageParam := "cf.search.language"
  const DefaultLanguage := "en"
  const MinTermLength := 3

  /** The HTTP errors the endpoints raise. */
  datatype ApiError = TopicNotFound(topicId: string) | MalformedFilter | MissingSearchTerm | InvalidLanguage

  /** The status code of each error: 404 for an unknown topic, 422 for a bad filter. */
  function Status(e: ApiError): (code: int)
    ensures code == 404 <==> e.TopicNotFound?
    ensures code == 404 || code == 422
  {
    if e.TopicNotFound? then 404 else 422
  }

  /** A dict of JSON values returned as a JSON object, members in key order. */
  function DictJson(d: Dict<Json>): (r: Json)
    requires Valid(d)
    ensures r.Obj? && |r.fields| == |d.keys|
    ensures forall i :: 0 <= i < |d.keys| ==> r.fields[i].0 == d.keys[i]
  {
    Obj(seq(|d.keys|, i requires 0 <= i < |d.keys| => (d.keys[i], d.entries[d.keys[i]])))
  }

  /** The object holds exactly the keys of the dict, each with its value. */
  lemma DictJsonLookup(d: Dict<Json>, k: string)
    requires Valid(d)
    ensures HasKey(DictJson(d).fields, k) <==> k in d.entries
    ensures k in d.entries ==> Lookup(DictJson(d).fields, k) == Some(d.entries[k])
  {
    var fields := DictJson(d).fields;
    if k in d.entries {
      var i :| 0 <= i < |d.keys| && d.keys[i] == k;
      LookupDistinct(fields, i);
    }
    if HasKey(fields, k) {
      var i :| 0 <= i < |fields| && fields[i].0 == k;
      assert d.keys[i] == k;
    }
  }

  /** `format_topic_for_response` (lines 156-163). */
  function FormatTopic(c: Concept): Json
    requires WellFormed(c)
  {
    Obj([("local_identifier", Str(c.id)), ("identifiers", Arr([])), ("entity_type", Str("topic")),
         ("labels", DictJson(c.prefLabels))])
  }

  /** What a client reads from a formatted topic: its identifier, no external
      identifiers, its type, and its preferred labels by language. */
  lemma FormatTopicFields(c: Concept)
    requires WellFormed(c)
    ensures Lookup(FormatTopic(c).fields, "local_identifier") == Some(Str(c.id))
    ensures Lookup(FormatTopic(c).fields, "identifiers") == Some(Arr([]))
    ensures Lookup(FormatTopic(c).fields, "entity_type") == Some(Str("topic"))
    ensures Lookup(FormatTopic(c).fields, "labels") == Some(DictJson(c.prefLabels))
  {
    var fields := FormatTopic(c).fields;
    LookupDistinct(fields, 0);
    LookupDistinct(fields, 1);
    LookupDistinct(fields, 2);
    LookupDistinct(fields, 3);
  }

  // ----- GET /api/topics/{topic_id} -----

  /** The JSON-LD context of a single-topic response. */
  function Context(): Json {
    Arr([Str(ContextUrl), Obj([("@base", Str(BaseUrl))])])
  }

  /** The graph item of a single-topic response: like `FormatTopic`, without `identifiers`. */
  function TopicItem(c: Concept): Json
    requires WellFormed(c)
  {
    Obj([("local_identifier", Str(c.id)), ("entity_type", Str("topic")), ("labels", DictJson(c.prefLabels))])
  }

  /** `topic_single(topic_id)` (lines 207-237). A stored concept is a non-empty
      dict, so `not concept_data` holds only for an unknown identifier. */
  function TopicSingle(table: Dict<Concept>, topicId: string): (r: Result<Json, ApiError>)
    requires GoodTable(table)
    ensures r.Err? <==> topicId !in table.entries
    ensures r.Err? ==> r.error == TopicNotFound(topicId) && Status(r.error) == 404
    ensures r.Ok? ==> r.value == Obj([("@context", Context()), ("@graph", Arr([TopicItem(table.entries[topicId])]))])
  {
    match Get(table, topicId)
    case None => Err(TopicNotFound(topicId))
    case Some(c) => Ok(Obj([("@context", Context()), ("@graph", Arr([TopicItem(c)]))]))
  }

  /** The single item of a found topic carries the requested identifier. */
  lemma TopicSingleId(table: Dict<Concept>, topicId: string)
    requires GoodTable(table) && topicId in table.entries
    ensures Lookup(TopicItem(table.entries[topicId]).fields, "local_identifier") == Some(Str(topicId))
  {
    LookupDistinct(TopicItem(table.entries[topicId]).fields, 0);
  }

  // ----- Parsing the `filter` parameter -----

  /** `key, value = part.split(':', 1)` followed by `strip()` on both: absent
      when the part has no colon, so that the unpacking raises `ValueError`. */
  function ParsePart(part: string): (r: Option<(string, string)>)
    ensures r.None? <==> ':' !in part
    ensures r.Some? ==> Stripped(r.value.0) && Stripped(r.value.1)
  {
    match SplitOnce(part, ':')
    case None => None
    case Some((k, v)) => Some((Strip(k), Strip(v)))
  }

  /** Every comma-separated part of the filter, parsed. */
  function ParsedParts(filter: string): (r: seq<Option<(string, string)>>)
    ensures |r| == |Split(filter, ',')|
    ensures forall i :: 0 <= i < |r| ==> r[i] == ParsePart(Split(filter, ',')[i])
  {
    var parts := Split(filter, ',');
    seq(|parts|, i requires 0 <= i < |parts| => ParsePart(parts[i]))
  }

  /** `filter_params[key] = value` for each parsed part in turn; the first part
      without a colon ends the loop with the error. */
  function Params(parsed: seq<Option<(string, string)>>): Result<map<string, string>, ApiError>
    decreases |parsed|
  {
    if parsed == [] then Ok(map[])
    else
      var m :- Params(parsed[..|parsed| - 1]);
      match parsed[|parsed| - 1]
      case None => Err(MalformedFilter)
      case Some((k, v)) => Ok(m[k := v])
  }

  /** The parameters `topic_result` reads from its `filter` argument. */
  function FilterOf(filter: string): Result<map<string, string>, ApiError> {
    Params(ParsedParts(filter))
  }

  lemma {:induction false} ParamsErrPersists(parsed: seq<Option<(string, string)>>, n: nat)
    requires n <= |parsed| && Params(parsed[..n]).Err?
    ensures Params(parsed) == Params(parsed[..n])
    decreases |parsed| - n
  {
    if n < |parsed| {
      assert parsed[..n + 1][..n] == parsed[..n];
      ParamsErrPersists(parsed, n + 1);
    } else {
      assert parsed[..n] == parsed;
    }
  }

  /** The parse loop of `topic_result` (lines 257-270). */
  method ParseFilter(filter: string) returns (r: Result<map<string, string>, ApiError>)
    ensures r == FilterOf(filter)
  {
    var parts := Split(filter, ',');
    ghost var parsed := ParsedParts(filter);
    var params := map[];
    var i := 0;
    while i < |parts|
      invariant 0 <= i <= |parts|
      invariant Params(parsed[..i]) == Ok(params)
    {
      assert parsed[..i + 1][..i] == parsed[..i];
      var kv := ParsePart(parts[i]);
      assert kv == parsed[i];
      if kv.None? {
        ParamsErrPersists(parsed, i + 1);
        return Err(MalformedFilter);
      }
      var (key, value) := kv.value;
      params := params[key := value];
      i := i + 1;
    }
    assert parsed[..i] == parsed;
    return Ok(params);
  }

  /** Parsing fails exactly when some part fails to parse. */
  lemma {:induction false} ParamsMalformed(parsed: seq<Option<(string, string)>>)
    ensures Params(parsed).Err? <==> exists i :: 0 <= i < |parsed| && parsed[i].None?
    ensures Params(parsed).Err? ==> Params(parsed).error == MalformedFilter
    decreases |parsed|
  {
    if parsed != [] {
      var init := parsed[..|parsed| - 1];
      ParamsMalformed(init);
      ExistsSplit(parsed, init, (x: Option<(string, string)>) => x.None?);
    }
  }

  /** A parameter is present exactly when some part names it. */
  lemma {:induction false} ParamsKeys(parsed: seq<Option<(string, string)>>, k: string)
    requires Params(parsed).Ok?
    ensures k in Params(parsed).value <==> exists i :: 0 <= i < |parsed| && parsed[i].Some? && parsed[i].value.0 == k
    decreases |parsed|
  {
    if parsed != [] {
      var init := parsed[..|parsed| - 1];
      ParamsKeys(init, k);
      ExistsSplit(parsed, init, (x: Option<(string, string)>) => x.Some? && x.value.0 == k);
    }
  }

  /** A parameter named by several parts has the value of the last of them. */
  lemma {:induction false} ParamsLastWins(parsed: seq<Option<(string, string)>>, i: nat)
    requires Params(parsed).Ok?
    requires i < |parsed| && parsed[i].Some?
    requires forall j :: i < j < |parsed| ==> parsed[j].None? || parsed[j].value.0 != parsed[i].value.0
    ensures parsed[i].value.0 in Params(parsed).value
    ensures Params(parsed).value[parsed[i].value.0] == parsed[i].value.1
    decreases |parsed|
  {
    if i < |parsed| - 1 {
      var init := parsed[..|parsed| - 1];
      assert init[i] == parsed[i];
      ParamsLastWins(init, i);
    }
  }

  /** Every parameter value is one of the parsed values. */
  lemma {:induction false} ParamsValues(parsed: seq<Option<(string, string)>>, k: string)
    requires Params(parsed).Ok? && k in Params(parsed).value
    ensures exists i :: 0 <= i < |parsed| && parsed[i] == Some((k, Params(parsed).value[k]))
    decreases |parsed|
  {
    var init := parsed[..|parsed| - 1];
    if parsed[|parsed| - 1].value.0 != k {
      ParamsValues(init, k);
      var i :| 0 <= i < |init| && init[i] == Some((k, Params(init).value[k]));
      assert parsed[i] == init[i];
    }
  }

  /** The filter is malformed exactly when one of its comma-separated parts has
      no colon; otherwise every named parameter is present with a stripped value. */
  lemma FilterMalformed(filter: string, k: string)
    ensures FilterOf(filter).Err? <==> exists part :: part in Split(filter, ',') && ':' !in part
    ensures FilterOf(filter).Err? ==> FilterOf(filter).error == MalformedFilter
    ensures FilterOf(filter).Ok? && k in FilterOf(filter).value ==> Stripped(FilterOf(filter).value[k])
  {
    var parts := Split(filter, ',');
    var parsed := ParsedParts(filter);
    ParamsMalformed(parsed);
    if exists part :: part in parts && ':' !in part {
      var part :| part in parts && ':' !in part;
      var i :| 0 <= i < |parts| && parts[i] == part;
      assert parsed[i].None?;
    }
    if FilterOf(filter).Ok? && k in FilterOf(filter).value {
      ParamsValues(parsed, k);
    }
  }

  // ----- Validating the parameters -----

  predicate IsLowerLetter(c: char) {
    'a' <= c <= 'z'
  }

  /** A two-letter lower-case language code. */
  predicate TwoLetterCode(s: string) {
    |s| == 2 && IsLowerLetter(s[0]) && IsLowerLetter(s[1])
  }

  /** `re.match("^[a-z]{2}$", s)`: two lower-case letters at the start, then the
      end of the string, or a newline that ends the string (where `$` also matches). */
  predicate LangPattern(s: string) {
    |s| >= 2 && IsLowerLetter(s[0]) && IsLowerLetter(s[1]) && (|s| == 2 || (|s| == 3 && s[2] == '\n'))
  }

  /** On a stripped value, the pattern accepts exactly the two-letter codes. */
  lemma LangPatternStripped(s: string)
    requires Stripped(s)
    ensures LangPattern(s) <==> TwoLetterCode(s)
  {
  }

  /** The pattern as written also accepts a code followed by a newline. */
  lemma LangPatternNewline()
    ensures LangPattern("de\n") && !TwoLetterCode("de\n")
  {
  }

  /** `filter_params.get("cf.search.language", "en")` */
  function LanguageOf(params: map<string, string>): string {
    if LanguageParam in params then params[LanguageParam] else DefaultLanguage
  }

  /** The checks of `topic_result` on its parameters (lines 272-297): the search
      term must have at least three characters, the language (English when
      absent) must match the pattern; the query is the lower-cased term. */
  function Validate(params: map<string, string>): (r: Result<(string, string), ApiError>)
    ensures (r == Err(MissingSearchTerm)) <==> LabelsParam !in params || |params[LabelsParam]| < MinTermLength
    ensures (r == Err(InvalidLanguage)) <==>
      LabelsParam in params && |params[LabelsParam]| >= MinTermLength && !LangPattern(LanguageOf(params))
    ensures r.Err? ==> r.error == MissingSearchTerm || r.error == InvalidLanguage
    ensures r.Ok? ==> LangPattern(r.value.1) && |r.value.0| >= MinTermLength
    ensures r.Ok? ==> r.value.0 == Lower(params[LabelsParam]) && r.value.1 == LanguageOf(params)
  {
    if LabelsParam !in params || |params[LabelsParam]| < MinTermLength then Err(MissingSearchTerm)
    else if !LangPattern(LanguageOf(params)) then Err(InvalidLanguage)
    else Ok((Lower(params[LabelsParam]), LanguageOf(params)))
  }

  /** The default language passes the check. */
  lemma DefaultLanguageValid()
    ensures LangPattern(DefaultLanguage) && TwoLetterCode(DefaultLanguage)
  {
  }

  // ----- Searching the index -----

  /** Reference definition: the concepts with an entry whose label contains the query. */
  function Matches(entries: seq<(string, string)>, query: string): set<string> {
    set i | 0 <= i < |entries| && IsSubstring(query, entries[i].0) :: entries[i].1
  }

  /** The matching loop of `topic_result` (lines 299-307). */
  method MatchingIds(entries: seq<(string, string)>, query: string) returns (ids: set<string>)
    ensures ids == Matches(entries, query)
  {
    ids := {};
    var i := 0;
    while i < |entries|
      invariant 0 <= i <= |entries|
      invariant ids == Matches(entries[..i], query)
    {
      var (text, id) := entries[i];
      var before := Matches(entries[..i], query);
      var after := Matches(entries[..i + 1], query);
      assert forall j :: 0 <= j < i ==> entries[..i + 1][j] == entries[..i][j];
      if IsSubstring(query, text) {
        assert after == before + {id};
        ids := ids + {id};
      } else {
        assert after == before;
      }
      i := i + 1;
    }
    assert entries[..i] == entries;
  }

  /** `id` is a concept of the table with a label in `lang` that contains the query. */
  ghost predicate Found(table: Dict<Concept>, lang: string, query: string, id: string) {
    id in table.entries && exists v :: v in LabelsIn(table.entries[id], lang) && v.Str? && IsSubstring(query, Lower(v.s))
  }

  /** `id` matches exactly when some label of that concept in the language
      contains the query (line 306 on the entries of lines 132-138). */
  lemma SearchMatches(table: Dict<Concept>, lang: string, query: string, id: string)
    requires GoodTable(table) && IndexableTable(table)
    ensures IndexOf(table, table.keys).Ok?
    ensures id in Matches(ListAt(IndexOf(table, table.keys).value, lang), query) <==> Found(table, lang, query, id)
  {
    SearchIndexOf(table, lang);
    KeysIndexable(table);
    EntriesMatch(table, table.keys, lang, query, id);
  }

  /** The keys of a table whose labels are all strings can be indexed. */
  lemma KeysIndexable(table: Dict<Concept>)
    requires GoodTable(table) && IndexableTable(table)
    ensures forall i :: 0 <= i < |table.keys| ==> table.keys[i] in table.entries && ConceptText(table.entries[table.keys[i]])
  { }

  /** A concept matches in the reference list exactly when it is among `ids`
      and one of its labels in the language contains the query. */
  lemma EntriesMatch(table: Dict<Concept>, ids: seq<string>, lang: string, query: string, id: string)
    requires forall i :: 0 <= i < |ids| ==> ids[i] in table.entries && ConceptText(table.entries[ids[i]])
    ensures id in Matches(IndexEntries(table, ids, lang), query) <==>
      id in ids && exists v :: v in LabelsIn(table.entries[id], lang) && v.Str? && IsSubstring(query, Lower(v.s))
  {
    var entries := IndexEntries(table, ids, lang);
    if id in Matches(entries, query) {
      var i :| 0 <= i < |entries| && IsSubstring(query, entries[i].0) && entries[i].1 == id;
      assert entries[i] in entries;
      IndexMembership(table, ids, lang, entries[i].0, id);
    }
    if id in ids && exists v :: v in LabelsIn(table.entries[id], lang) && v.Str? && IsSubstring(query, Lower(v.s)) {
      var v :| v in LabelsIn(table.entries[id], lang) && v.Str? && IsSubstring(query, Lower(v.s));
      IndexMembership(table, ids, lang, Lower(v.s), id);
      var i :| 0 <= i < |entries| && entries[i] == (Lower(v.s), id);
    }
  }

  // ----- The response -----

  /** `results.append(format_topic_for_response(...))` for every identifier
      that is in the table, in order. */
  function Formatted(table: Dict<Concept>, ids: seq<string>): seq<Json>
    requires GoodTable(table)
    decreases |ids|
  {
    if ids == [] then []
    else
      var id := ids[|ids| - 1];
      Formatted(table, ids[..|ids| - 1]) + (if id in table.entries then [FormatTopic(table.entries[id])] else [])
  }

  /** When every identifier is in the table, each one gives one topic, in order. */
  lemma {:induction false} FormattedAll(table: Dict<Concept>, ids: seq<string>)
    requires GoodTable(table) && forall id :: id in ids ==> id in table.entries
    ensures |Formatted(table, ids)| == |ids|
    ensures forall i :: 0 <= i < |ids| ==> Formatted(table, ids)[i] == FormatTopic(table.entries[ids[i]])
    decreases |ids|
  {
    if ids != [] {
      var init := ids[..|ids| - 1];
      assert forall id :: id in init ==> id in ids;
      FormattedAll(table, init);
    }
  }

  /** The results loop of `topic_result` (lines 310-314). */
  method FormatResults(table: Dict<Concept>, ids: seq<string>) returns (results: seq<Json>)
    requires GoodTable(table)
    ensures results == Formatted(table, ids)
  {
    results := [];
    var i := 0;
    while i < |ids|
      invariant 0 <= i <= |ids|
      invariant results == Formatted(table, ids[..i])
    {
      assert ids[..i + 1][..i] == ids[..i];
      var c := Get(table, ids[i]);
      if c.Some? {
        results := results + [FormatTopic(c.value)];
      }
      i := i + 1;
    }
    assert ids[..i] == ids;
  }

  /** `{"meta": {"count": len(results), "page": 0, "page_size": 0}, "results": results}` */
  function Response(results: seq<Json>): Json {
    Obj([("meta", Obj([("count", Num(|results|)), ("page", Num(0)), ("page_size", Num(0))])),
         ("results", Arr(results))])
  }

  /** The answer to a validated query in a language: the formatted topics of the
      matching concepts in sorted order. */
  ghost function Answer(table: Dict<Concept>, index: Index, query: string, lang: string): Json
    requires GoodTable(table)
  {
    Response(Formatted(table, Ordering.SortedOf(Matches(ListAt(index, lang), query))))
  }

  /** `topic_result(filter)` against the table and its index (lines 240-326). */
  ghost function TopicResultOf(table: Dict<Concept>, index: Index, filter: string): Result<Json, ApiError>
    requires GoodTable(table)
  {
    var params :- FilterOf(filter);
    var checked :- Validate(params);
    Ok(Answer(table, index, checked.0, checked.1))
  }

  method TopicResult(table: Dict<Concept>, index: Index, filter: string) returns (r: Result<Json, ApiError>)
    requires GoodTable(table)
    ensures r == TopicResultOf(table, index, filter)
  {
    var params :- ParseFilter(filter);
    var checked :- Validate(params);
    var (query, lang) := checked;
    var matching := MatchingIds(ListAt(index, lang), query);
    var ids := Ordering.SortIds(matching);
    Ordering.SortedUnique(ids, Ordering.SortedOf(matching));
    var results := FormatResults(table, ids);
    return Ok(Response(results));
  }

  /** On the built index, the identifiers answered are in increasing order without
      repeats, and a concept is answered exactly when one of its labels in the
      language contains the query. */
  lemma AnswerIds(table: Dict<Concept>, query: string, lang: string)
    requires GoodTable(table) && IndexableTable(table)
    ensures IndexOf(table, table.keys).Ok?
    ensures var ids := Ordering.SortedOf(Matches(ListAt(IndexOf(table, table.keys).value, lang), query));
      && Ordering.StrictlySorted(ids)
      && forall id :: id in ids <==> Found(table, lang, query, id)
  {
    SearchIndexOf(table, lang);
    var ids := Ordering.SortedOf(Matches(ListAt(IndexOf(table, table.keys).value, lang), query));
    forall id
      ensures id in ids <==> Found(table, lang, query, id)
    {
      SearchMatches(table, lang, query, id);
    }
  }

  /** On the built index, the answer holds one topic per answered identifier, in
      that order, and its count is their number. */
  lemma AnswerTopics(table: Dict<Concept>, query: string, lang: string)
    requires GoodTable(table) && IndexableTable(table)
    ensures IndexOf(table, table.keys).Ok?
    ensures var ids := Ordering.SortedOf(Matches(ListAt(IndexOf(table, table.keys).value, lang), query));
      && (forall id :: id in ids ==> id in table.entries)
      && Answer(table, IndexOf(table, table.keys).value, query, lang)
         == Response(seq(|ids|, i requires 0 <= i < |ids| && ids[i] in table.entries => FormatTopic(table.entries[ids[i]])))
  {
    AnswerIds(table, query, lang);
    var ids := Ordering.SortedOf(Matches(ListAt(IndexOf(table, table.keys).value, lang), query));
    FormattedSeq(table, ids);
  }

  /** Every identifier in the table: the topics are exactly the formatted concepts. */
  lemma FormattedSeq(table: Dict<Concept>, ids: seq<string>)
    requires GoodTable(table) && forall id :: id in ids ==> id in table.entries
    ensures Formatted(table, ids) == seq(|ids|, i requires 0 <= i < |ids| && ids[i] in table.entries => FormatTopic(table.entries[ids[i]]))
  {
    FormattedAll(table, ids);
  }
}
