# ELSST autocomplete service, modelled in Dafny

The service answers topic suggestions from an export of the European Language
Social Science Thesaurus (ELSST), a SKOS thesaurus published as JSON-LD. It
comes in two versions:

- `server.py`, multilingual. It loads every concept with its preferred labels
  per language, its alternate labels per language and its first broader
  concept. From these it builds a per-language search index of
  `(lower-cased label, id)` pairs. It answers `/api/topics?filter=...`
  (parse the filter, validate the term and the language, search, sort) and
  `/api/topics/{id}`.
- `app/server.py`, English with hierarchy. It loads the first English
  preferred label and every non-empty alternate label. It answers
  `/api/topics?q=...` with the DataSource node and one SKG-IF Topic for each
  matching concept and each of its ancestors. Ancestors come from a walk of
  at most 20 steps up the `broader` links.

The model starts from the JSON value `json.load` returns. The `Json` datatype
represents it: objects are ordered member lists, repeated keys keep their last
value, and numbers are integers. A Python exception raised by a value of an
unexpected shape (a TypeError or AttributeError) is the fault `Crash`. Python
dicts whose order matters are `Dicts.Dict`: a key list in insertion order plus
a map.

The loops of the source are methods with `while` loops:

- graph extraction;
- the concept loop;
- the label loops;
- index building;
- filter parsing;
- matching;
- the hierarchy walk;
- closure;
- graph building.

Each method is proved equal to a specification function. The properties the
service promises are proved as lemmas about those functions.

Modules:

- Shared base: `Results`, `Text`, `Ordering`, `Json`, `Dicts`.
- `Skos`: the loading code the two versions share. This is graph
  extraction, concept selection, the broader link and the table fold, cited
  by their `server.py` lines. `app/server.py:51-77` and `app/server.py:94-105`
  are the same code.
- `server.py`: `Multilingual` (the loader), `SearchIndex` and `Topics` (the
  two endpoints).
- `app/server.py`: `EnglishTable` (the loader), `Hierarchy`, `Quote`
  (`urllib.parse.quote`), `SkgIf` and `Autocomplete`.

Where a general statement of the service's behaviour differs from the code,
the model follows the code. One case matters: `get_parent_hierarchy("")`
returns the empty set, because `not ""` holds. So the hierarchy of a start id
contains that id when the id is in the table and is not empty
(`Hierarchy.HierarchyFacts`). Likewise, the autocomplete graph shows every
matching id except the empty one (`Autocomplete.ResponseShowsMatches`).

## Model

| member | source | states |
|---|---|---|
| Json.Lookup | server.py:58 | a member is found exactly when the object has that key, and the value found is one of the object's members under that key |
| Json.LookupDistinct | app/server.py:147-153 | in an object with distinct keys, each key looks up its own member |
| Json.GetOr | server.py:74 | `get(k, default)` gives the member under `k` when there is one and the default otherwise |
| Json.Contains | server.py:78 | `needle in v` raises exactly for null, booleans and numbers; on a list it is list membership |
| Json.Iterate | server.py:85 | a `for` loop raises exactly on null, booleans and numbers; a list yields its items; a dict or string yields strings |
| Json.GetAttr | server.py:86-87 | `v.get` works exactly on dicts, where it is `GetOr` |
| Json.KeyOf | server.py:81 | a value is a usable table key exactly when it is a string, and the key is that string |
| Dicts.Empty | server.py:84 | the empty dict has no keys and no entries |
| Dicts.Put | server.py:89 | assignment replaces the value under `k`; the key list grows only when `k` is new |
| Dicts.Get | app/server.py:124-126 | `get(k)` finds exactly the keys of the dict and gives their values |
| Dicts.Append | server.py:97 | `setdefault(k, []).append(v)` extends `k`'s list by `v`, changes no other list, and adds `k` to the keys only when it is new |
| Text.SubstringIffOccurs | server.py:306 | `needle in hay` holds exactly when the needle occurs at some position of the haystack |
| Text.Lower | server.py:297 | lower-casing keeps the length and maps every character on its own |
| Text.TrimStart | server.py:261 | the left-stripped string is no longer than the input and starts with no whitespace |
| Text.TrimStartSuffix | server.py:261 | left-stripping keeps a suffix and cuts only whitespace |
| Text.TrimEnd | server.py:261 | the right-stripped string ends with no whitespace |
| Text.TrimEndPrefix | server.py:261 | right-stripping keeps a prefix and cuts only whitespace |
| Text.Strip | server.py:261 | `strip()` gives a string that neither starts nor ends with whitespace |
| Text.StripInside | server.py:261 | the stripped string is a slice of the input with only whitespace outside it |
| Text.StripIdempotent | server.py:261 | stripping twice equals stripping once |
| Text.Split | server.py:259 | `split(',')` always gives at least one part |
| Text.SplitJoin | server.py:259 | no part contains the separator, and joining the parts with it gives the input back |
| Text.SplitUnique | server.py:259 | `split` is the only separator-free cut of the input that joins back to it |
| Text.SplitOnce | server.py:260 | `split(':', 1)` fails exactly when there is no colon; otherwise the first part has no colon and the parts rebuild the input |
| Ordering.LexIrreflexive | server.py:311 | no string sorts before itself |
| Ordering.LexTransitive | server.py:311 | the string order is transitive |
| Ordering.LexTotal | server.py:311 | any two different strings are ordered |
| Ordering.LexAsymmetric | server.py:311 | the string order is asymmetric |
| Ordering.Insert | server.py:311 | inserting a new element keeps the sequence strictly sorted and adds exactly that element |
| Ordering.SortIds | server.py:311 | `sorted(list(ids))` is strictly increasing and has exactly the elements of the set, each once |
| Ordering.SortedUnique | server.py:311 | a set has one strictly sorted enumeration, so the sorted output is determined |
| Ordering.SortedExists | server.py:311 | every finite set of ids has a strictly sorted enumeration |
| Ordering.SortedOf | server.py:311 | the sorted enumeration of a set is strictly sorted and has exactly its elements |
| Ordering.FirstSeen | server.py:105 | the key order of a dict filled from a sequence has each element of the sequence once |
| Skos.ExtractGraph | server.py:55-66 | the graph loop computes the graph, and any top-level shape other than a list or an object with `@graph` gives an empty graph |
| Skos.ListGraphConcatenates | server.py:59-63 | for a list of objects, the graph is their `@graph` arrays concatenated in order |
| Skos.GraphShapes | server.py:55-66 | an object's `@graph` array is the graph; a list gives the concatenation; anything else gives nothing |
| Skos.Selects | server.py:70-79 | an item is kept exactly when it is a dict with `@id` whose `@type`, a string or a list, names the SKOS Concept; a scalar `@type` makes `in` raise |
| Skos.BroaderOf | server.py:99-103 | broader is null when absent or falsy; otherwise it is the `@id` of the first entry, a lone object counting as a one-element list; it raises when that first entry is not a dict |
| Skos.TableOf | server.py:70-110 | the table built by the concept loop is a well-formed ordered dict |
| Skos.TableErr | server.py:70-110 | loading raises exactly when reading some item raises |
| Skos.TableKeys | server.py:105 | the table's keys are exactly the ids of the entries read |
| Skos.TableLastWins | server.py:105-110 | of two items with the same id, the later one is kept |
| Skos.TableEntriesRead | server.py:105-110 | every entry is what reading some item gave under that id |
| Skos.TableOrder | server.py:105 | the table keeps its keys in order of first appearance |
| Skos.TableOfSelected | server.py:70-81 | the table holds exactly the selected items, keyed by `@id` |
| Multilingual.ReadPrefLabels | server.py:84-89 | the preferred-label loop computes the per-language dict of its specification |
| Multilingual.PrefLabelsOk | server.py:85-88 | the preferred labels are read without a fault exactly when every label is a dict, and every recorded label (non-empty language and value) has a string language |
| Multilingual.PrefLabelsLast | server.py:86-89 | a language is present exactly when some label with non-empty language and value is in it, and it holds the last such value |
| Multilingual.ReadAltLabels | server.py:92-97 | the alternate-label loop computes the per-language lists of its specification |
| Multilingual.AltLabelsOk | server.py:93-96 | the alternate labels are read without a fault exactly when every label is a dict, and every recorded label has a string language |
| Multilingual.AltLabelsCollect | server.py:94-97 | each language's list is the non-empty values in that language, in input order; a language is present exactly when its list is non-empty |
| Multilingual.ValuesInMembers | server.py:96 | a language has values exactly when some label kept in it exists |
| Multilingual.ReadConcept | server.py:70-110 | reading one graph item computes the entry of its specification |
| Multilingual.ConceptOfSelects | server.py:70-110 | an item is read following the selection rule, and the entry carries its own id and well-formed label dicts |
| Multilingual.Load | server.py:55-113 | the loader computes the table of its specification |
| Multilingual.LoadedKeys | server.py:70-110 | the table's keys are the `@id`s of exactly the selected items, in order of first appearance |
| Multilingual.LoadedGood | server.py:105-110 | every entry carries its own key and well-formed label dicts |
| Multilingual.LoadedLastWins | server.py:105 | each entry is the one read from the last item with that id |
| SearchIndex.LabelsIn | server.py:132-138 | a concept's indexable labels in one language are strings whenever all its labels are |
| SearchIndex.Lowered | server.py:133 | one index entry for each value |
| SearchIndex.LoweredAt | server.py:133 | each value gives the pair of its lower-cased text and the concept id, in place |
| SearchIndex.AddLabelValues | server.py:137-138 | the inner alternate-label loop computes its specification |
| SearchIndex.AddValuesOk | server.py:137-138 | adding values raises exactly when one of them is not a string |
| SearchIndex.AddValuesEffect | server.py:137-138 | the entries of the values go at the end of that language's list, nothing else changes, and the language appears once it has an entry |
| SearchIndex.AddOne | server.py:133 | one value appends its entry, or raises if it is not a string |
| SearchIndex.AddValuesNoEmpty | server.py:137-138 | no list of the index is empty |
| SearchIndex.AddPrefsOk | server.py:132-133 | the preferred labels raise exactly when one of them is not a string |
| SearchIndex.AddPrefsEffect | server.py:132-133 | each language's preferred label goes at the end of that language's list |
| SearchIndex.AddPrefsNoEmpty | server.py:132-133 | no list of the index is empty |
| SearchIndex.AddAltsOk | server.py:136-138 | the alternate labels raise exactly when one of them is not a string |
| SearchIndex.AddAltsEffect | server.py:136-138 | each language's alternate labels go, in order, at the end of that language's list |
| SearchIndex.AddAltsNoEmpty | server.py:136-138 | no list of the index is empty |
| SearchIndex.LoweredConcat | server.py:132-138 | the entries of two runs of values are the entries of each, one after the other |
| SearchIndex.AddConceptOk | server.py:131-138 | indexing a concept raises exactly when one of its labels is not a string |
| SearchIndex.AddConceptEffect | server.py:131-138 | a concept's labels in each language go at the end of that language's list, the preferred label first |
| SearchIndex.AddConceptNoEmpty | server.py:131-138 | no list of the index is empty |
| SearchIndex.IndexOk | server.py:130-138 | indexing raises exactly when some concept has a label that is not a string |
| SearchIndex.IndexLists | server.py:130-138 | each language's list is the reference list, concepts in table order, preferred label before alternate labels; a language is listed exactly when it has entries |
| SearchIndex.IndexPrefs | server.py:132-133 | the preferred-label loop computes its specification |
| SearchIndex.IndexAlts | server.py:136-138 | the alternate-label loop computes its specification |
| SearchIndex.IndexConcept | server.py:131-138 | one concept's loops compute its specification |
| SearchIndex.BuildSearchIndex | server.py:116-144 | `build_search_index` computes the index of its specification |
| SearchIndex.SearchIndexOf | server.py:116-144 | the index is built exactly when every label is a string; each language's list is the reference list |
| SearchIndex.IndexMembership | server.py:130-138 | a pair is in a language's list exactly when its id is a concept of the table with a label in that language that lower-cases to the text, so every id in the index is a table key |
| Topics.Status | server.py:210-211 | an error's status is 404 exactly when the topic is unknown, and 422 otherwise |
| Topics.DictJson | server.py:162 | a dict becomes an object whose members follow the dict's key order |
| Topics.DictJsonLookup | server.py:162 | the object holds exactly the keys of the dict, each with its value |
| Topics.FormatTopicFields | server.py:156-163 | a formatted topic has the concept's id, no identifiers, entity type `topic` and the preferred labels by language |
| Topics.TopicSingle | server.py:207-237 | the single-topic endpoint fails exactly for an unknown id, with not-found and 404; otherwise it returns a one-item graph with the context |
| Topics.TopicSingleId | server.py:216-217 | the item of a found topic carries the requested identifier |
| Topics.ParsePart | server.py:260-261 | a part fails to parse exactly when it has no colon; key and value are stripped |
| Topics.ParsedParts | server.py:259 | each comma-separated part of the filter is parsed, in order |
| Topics.ParseFilter | server.py:257-270 | the parse loop computes the parameters of its specification |
| Topics.ParamsMalformed | server.py:259-270 | parsing fails, with the malformed-filter error, exactly when some part has no colon |
| Topics.ParamsKeys | server.py:261 | a parameter is present exactly when some part names it |
| Topics.ParamsLastWins | server.py:261 | a key named by several parts has the value of the last one |
| Topics.ParamsValues | server.py:261 | every parameter value comes from a part with that key |
| Topics.FilterMalformed | server.py:259-270 | the filter is malformed exactly when one of its comma-separated parts has no colon; otherwise all values are stripped |
| Topics.LangPatternStripped | server.py:286 | on a stripped value the pattern accepts exactly two lower-case letters |
| Topics.LangPatternNewline | server.py:286 | the pattern as written also accepts two letters followed by a newline |
| Topics.Validate | server.py:272-297 | a missing term or one shorter than 3 characters is rejected; otherwise a language (default `en`) that fails the pattern is rejected; otherwise the query is the lower-cased term |
| Topics.DefaultLanguageValid | server.py:285-286 | the default language passes the check |
| Topics.MatchingIds | server.py:300-307 | the matching loop gives the ids of the entries whose label contains the query |
| Topics.SearchMatches | server.py:303-307 | an id matches exactly when it is a table concept with a label in the language that contains the query (soundness and completeness) |
| Topics.FormattedAll | server.py:310-314 | when every id is in the table, each id gives one formatted topic, in order |
| Topics.FormatResults | server.py:310-314 | the results loop computes its specification |
| Topics.TopicResult | server.py:240-326 | the endpoint computes the answer of its specification |
| Topics.AnswerIds | server.py:297-311 | on a loaded table, the ids the search keeps are strictly increasing (sorted, no repeats) and an id is among them exactly when one of its labels in the language, lower-cased, contains the query |
| Topics.AnswerTopics | server.py:312-324 | every kept id is a table key, and the response lists, in that order, exactly one formatted topic per kept id, with `meta.count` equal to their number |
| EnglishTable.FirstEnglish | app/server.py:82-83 | the index found is that of an English label with no English label before it; none is found only when no label is English |
| EnglishTable.EnglishLabelFirst | app/server.py:80-85 | the preferred label is the `@value` (default `""`) of the first English label, or `""` when there is none; it raises exactly when a label before or at that point is not a dict |
| EnglishTable.ReadEnglishLabel | app/server.py:80-85 | the loop with `break` computes the preferred label of its specification |
| EnglishTable.AltValues | app/server.py:88-92 | every alternate label kept is truthy |
| EnglishTable.AltValuesAll | app/server.py:88-92 | alternate labels raise exactly when some label is not a dict; otherwise they are all truthy values, of any language, in input order |
| EnglishTable.ReadAltValues | app/server.py:88-92 | the loop computes the alternate labels of its specification |
| EnglishTable.ReadConcept | app/server.py:66-105 | reading one graph item computes the entry of its specification |
| EnglishTable.Load | app/server.py:51-108 | the loader computes the table of its specification |
| EnglishTable.ConceptOfSelects | app/server.py:66-105 | an item is read following the selection rule, and the entry carries its own id |
| EnglishTable.LoadedKeys | app/server.py:64-105 | the table's keys are the `@id`s of exactly the selected items, in order of first appearance |
| EnglishTable.LoadedGood | app/server.py:100-105 | every entry carries its own key |
| EnglishTable.LoadedLastWins | app/server.py:100 | each entry is the one read from the last item with that id |
| EnglishTable.GetConceptById | app/server.py:124-126 | a concept is found exactly for a table key, and it carries that id |
| Hierarchy.GetParentHierarchy | app/server.py:128-142 | the 20-step loop with `break` computes the set of ids of the reference walk |
| Hierarchy.WalkBound | app/server.py:133 | the walk visits at most as many ids as it has steps, so it ends even on cyclic broader chains |
| Hierarchy.WalkFollows | app/server.py:136-139 | every visited id is a table key; the first is the start, and each next one is the broader of the one before |
| Hierarchy.WalkStops | app/server.py:134-141 | a walk that ends before its last step ends at a falsy broader or one that names no entry |
| Hierarchy.WalkErr | app/server.py:136 | the walk raises only on reaching a truthy list or dict as an id, which is unhashable |
| Hierarchy.HierarchyFacts | app/server.py:128-142 | the hierarchy has at most 20 ids, all table keys; it contains the start exactly when the start is non-empty and in the table |
| Quote.Utf8 | app/server.py:148 | a character encodes to one to four bytes |
| Quote.Utf8Shape | app/server.py:148 | the lead byte announces the length, the rest are continuation bytes, and together they give the code point back |
| Quote.DecodeUtf8 | app/server.py:148 | one encoded character is decoded back, whatever follows |
| Quote.DecodeEncode | app/server.py:148 | UTF-8 decoding inverts the encoding |
| Quote.QuoteByte | app/server.py:148 | each byte is written as one or three characters |
| Quote.QuoteByteShape | app/server.py:148 | a byte is written as one character exactly when it is an unreserved ASCII character or `/`, and then as itself; otherwise as `%` followed by the two hexadecimal digits of its value |
| Quote.UnquoteByte | app/server.py:148 | one quoted byte is decoded back, whatever follows |
| Quote.UnquoteQuoteBytes | app/server.py:148 | percent-decoding inverts the percent-encoding of bytes |
| Quote.QuoteRoundTrip | app/server.py:148 | percent-decoding a quoted id gives its UTF-8 bytes, and decoding those gives the id |
| Quote.QuoteInjective | app/server.py:148 | different ids are quoted differently |
| Quote.QuoteAlphabet | app/server.py:148 | quoted text holds only unreserved characters, `/`, `%` and upper-case hexadecimal digits |
| Quote.QuoteSafe | app/server.py:148 | a string of unreserved characters and `/` is left as it is |
| SkgIf.DataSourceFields | app/server.py:163-171 | the DataSource descriptor is an object with distinct keys, the ELSST DataSource id as `@id` and type `DataSource` |
| SkgIf.TopicLookup | app/server.py:147-160 | the keys of a topic are distinct, so each key looks up its own member |
| SkgIf.TopicRequired | app/server.py:146-153 | a topic's `@id` is the base URL followed by the quoted id; it has type `Topic`, the raw id as local identifier, the preferred label as name and the DataSource as source |
| SkgIf.TopicAlternateName | app/server.py:154-155 | `alternate_name` is present exactly when there are alternate labels, and then holds all of them |
| SkgIf.TopicParent | app/server.py:156-160 | `parent_topic` is present exactly when broader is truthy, even when the parent is not in the table, and then refers to it by local identifier |
| SkgIf.TopicUrlsDistinct | app/server.py:148 | topics of different concepts have different `@id`s |
| Autocomplete.LabelMatch | app/server.py:190 | testing one label raises exactly when it is not a string |
| Autocomplete.AltMatchFirst | app/server.py:193-196 | the alternate labels are searched up to the first hit: they raise exactly when a non-string comes before any hit, and otherwise they match exactly when some label is a hit |
| Autocomplete.MatchAlt | app/server.py:193-196 | the loop with `break` computes the result of its specification |
| Autocomplete.ConceptMatchMentions | app/server.py:190-196 | a concept matches exactly when its preferred label or some alternate label contains the query; the test raises when the preferred label is not a string or the alternate labels raise |
| Autocomplete.FindMatches | app/server.py:187-196 | the match loop over the table computes the matches of its specification |
| Autocomplete.MatchesExactly | app/server.py:187-196 | an id matches exactly when it is a key of the table whose concept mentions the query (soundness and completeness) |
| Autocomplete.MatchesErr | app/server.py:187-196 | the search raises exactly when the test raises on some entry |
| Autocomplete.CollectHierarchies | app/server.py:199-201 | in any iteration order, the closure loop gives the union of the matches' hierarchies, or raises when one of them raises |
| Autocomplete.ClosureFacts | app/server.py:199-201 | every related id is a table key; every non-empty match is related; an id is related exactly when it is in some match's hierarchy |
| Autocomplete.Topics | app/server.py:205-208 | one Topic per id |
| Autocomplete.BuildGraph | app/server.py:204-208 | the graph is the DataSource followed by one Topic per related id found in the table, each id once, in some iteration order |
| Autocomplete.Autocomplete | app/server.py:175-221 | the endpoint raises exactly when matching or the closure raises; otherwise the response is the context and the DataSource followed by one Topic per related id, each once |
| Autocomplete.EnumerationLength | app/server.py:205 | listing a set without repeats gives as many elements as the set has |
| Autocomplete.ResponseGraph | app/server.py:204-208 | the graph starts with the DataSource and has 1 + the number of related ids members, one Topic per id |
| Autocomplete.ResponseShowsMatches | app/server.py:184-208 | every non-empty matching id has a Topic, and a query with no match gives only the DataSource |

## Left out

- File opening and `json.load`, with their fallbacks to an empty table (`server.py:43-53`, `app/server.py:39-49`). These are I/O; the model starts from the parsed value.
- The FastAPI application: route decorators, `async`, the `HTTPException` transport and `uvicorn.run`. Errors are values of `Topics.ApiError` with their status codes; their detail messages are not modelled.
- The framework's `Query` and `Path` checks (`min_length=19` for `filter`, `min_length=3` for `q`). The framework rejects these inputs before the handler runs.
- The `show_index_data` debug endpoint (`server.py:167-190`), because it samples at random.
- `print` logging: it has no effect on results.
- Text.Lower: only ASCII letters are lower-cased. Python's full Unicode `str.lower()` is a foreign library table.
- Json.KeyOf: a number, boolean or null used as an `@id` or `@language` key is the fault `NonStringKey`. Python accepts such keys; this model does not.
- Quote.Quote and SkgIf.TopicUrl: strings are sequences of Unicode scalar values, so a string holding a lone surrogate (which `json.load` accepts, as in `"\ud800"`) is not modelled, nor the `UnicodeEncodeError` that `quote` raises on it at `app/server.py:148`; the model's quoting never fails.
- JSON numbers are integers. Floating point is not modelled, because numbers matter here only for truthiness.
- Autocomplete.BuildGraph: Python's set iteration order is not modelled. The graph order is stated as some enumeration of the related ids without repeats.
- Autocomplete.CollectHierarchies: the exception raised is `Crash` whatever the iteration order. The model does not pick which raising match is reached first.
- SearchIndex.IndexLists: the order of the index's language keys is not stated; the lists per language are.
- Json.GetOr: a repeated key in an input object keeps its last value, as `json.load` builds dicts. A Python dict literal has distinct keys, so lookups agree there.
