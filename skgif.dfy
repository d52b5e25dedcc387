/** Rendering of the English table in the SKG Interoperability Framework
    (SKG-IF): the ELSST DataSource node and one Topic per concept. */
module SkgIf {
  import opened Results
  import opened Json
  import opened EnglishTable
  import Quote

  const BaseUrl := "https://w3id.org/skg-if/sandbox/cessda-elsst/"
  const DataSourceId := "urn:cessda:elsst-v5"
  const TopicType := "Topic"

  /** `get_data_source()` (lines 163-171): a fixed descriptor. */
  function DataSource(): Json {
    Obj([
      ("@id", Str(DataSourceId)),
      ("@type", Str("DataSource")),
      ("local_identifier", Str("elsst-v5")),
      ("name", Str("European Language Social Science Thesaurus (ELSST) - Version 5")),
      ("url", Str("https://thesauri.cessda.eu/elsst-5/en/"))
    ])
  }

  /** The descriptor is an object with distinct keys whose `@id` is the
      DataSource id and whose `@type` is `DataSource`. */
  lemma DataSourceFields()
    ensures DataSource().Obj?
    ensures Lookup(DataSource().fields, "@id") == Some(Str(DataSourceId))
    ensures Lookup(DataSource().fields, "@type") == Some(Str("DataSource"))
    ensures var fs := DataSource().fields; forall a, b :: 0 <= a < b < |fs| ==> fs[a].0 != fs[b].0
  {
    var fs := DataSource().fields;
    LookupDistinct(fs, 0);
    LookupDistinct(fs, 1);
  }

  /** The address of a topic: the base URL followed by the percent-encoded id. */
  function TopicUrl(id: string): string {
    BaseUrl + Quote.Quote(id)
  }

  /** The shallow reference to a parent topic. */
  function ParentRef(broader: Json): Json {
    Obj([("@type", Str(TopicType)), ("local_identifier", broader)])
  }

  /** The members every topic has, in the order `to_skgif_topic` writes them. */
  function RequiredFields(c: Concept): seq<(string, Json)> {
    [
      ("@id", Str(TopicUrl(c.id))),
      ("@type", Str(TopicType)),
      ("local_identifier", Str(c.id)),
      ("name", c.prefLabel),
      ("source", Obj([("@id", Str(DataSourceId))]))
    ]
  }

  /** The members added when there are alternate labels and when there is a broader link. */
  function OptionalFields(c: Concept): seq<(string, Json)> {
    (if c.altLabel != [] then [("alternate_name", Arr(c.altLabel))] else [])
    + (if Truthy(c.broader) then [("parent_topic", ParentRef(c.broader))] else [])
  }

  /** `to_skgif_topic(concept_data)` (lines 144-161). */
  function ToSkgifTopic(c: Concept): Json {
    Obj(RequiredFields(c) + OptionalFields(c))
  }

  /** The keys of a topic are distinct, so each member is what its key looks up. */
  lemma TopicLookup(c: Concept, i: nat)
    requires i < |ToSkgifTopic(c).fields|
    ensures var fs := ToSkgifTopic(c).fields; Lookup(fs, fs[i].0) == Some(fs[i].1)
  {
    var fs := ToSkgifTopic(c).fields;
    assert forall a, b :: 0 <= a < b < |fs| ==> fs[a].0 != fs[b].0;
    LookupDistinct(fs, i);
  }

  /** The optional members are `alternate_name` and `parent_topic`. */
  lemma OptionalKeys(c: Concept)
    ensures var opt := OptionalFields(c);
      forall i :: 0 <= i < |opt| ==> opt[i].0 == "alternate_name" || opt[i].0 == "parent_topic"
  {
  }

  /** Each required member is what its key looks up in the whole topic. */
  lemma TopicField(c: Concept, i: nat)
    requires i < |RequiredFields(c)|
    ensures Lookup(ToSkgifTopic(c).fields, RequiredFields(c)[i].0) == Some(RequiredFields(c)[i].1)
  {
    var req := RequiredFields(c);
    var opt := OptionalFields(c);
    assert forall a, b :: 0 <= a < b < |req| ==> req[a].0 != req[b].0;
    LookupDistinct(req, i);
    OptionalKeys(c);
    assert req[i].0 != "alternate_name" && req[i].0 != "parent_topic";
    LookupAppendOther(req, opt, req[i].0);
  }

  /** The topic carries the concept's address, identifier, name and source. */
  lemma TopicRequired(c: Concept)
    ensures var fs := ToSkgifTopic(c).fields;
      && Lookup(fs, "@id") == Some(Str(TopicUrl(c.id)))
      && Lookup(fs, "@type") == Some(Str(TopicType))
      && Lookup(fs, "local_identifier") == Some(Str(c.id))
      && Lookup(fs, "name") == Some(c.prefLabel)
      && Lookup(fs, "source") == Some(Obj([("@id", Str(DataSourceId))]))
  {
    TopicField(c, 0);
    TopicField(c, 1);
    TopicField(c, 2);
    TopicField(c, 3);
    TopicField(c, 4);
  }

  /** `alternate_name` is present exactly when there are alternate labels, and
      then holds all of them. */
  lemma TopicAlternateName(c: Concept)
    ensures var fs := ToSkgifTopic(c).fields;
      && (HasKey(fs, "alternate_name") <==> c.altLabel != [])
      && (c.altLabel != [] ==> Lookup(fs, "alternate_name") == Some(Arr(c.altLabel)))
  {
    if c.altLabel != [] {
      TopicLookup(c, 5);
    }
  }

  /** `parent_topic` is present exactly when the broader link is truthy, whether
      or not the parent is in the table, and then refers to it by identifier. */
  lemma TopicParent(c: Concept)
    ensures var fs := ToSkgifTopic(c).fields;
      && (HasKey(fs, "parent_topic") <==> Truthy(c.broader))
      && (Truthy(c.broader) ==> Lookup(fs, "parent_topic") == Some(ParentRef(c.broader)))
  {
    var fs := ToSkgifTopic(c).fields;
    if Truthy(c.broader) {
      TopicLookup(c, |fs| - 1);
    }
  }

  /** Topics of different concepts have different addresses. */
  lemma TopicUrlsDistinct(a: Concept, b: Concept)
    requires a.id != b.id
    ensures Lookup(ToSkgifTopic(a).fields, "@id") != Lookup(ToSkgifTopic(b).fields, "@id")
  {
    TopicRequired(a);
    TopicRequired(b);
    if Quote.Quote(a.id) == Quote.Quote(b.id) {
      Quote.QuoteInjective(a.id, b.id);
    }
    assert TopicUrl(a.id)[|BaseUrl|..] == Quote.Quote(a.id);
    assert TopicUrl(b.id)[|BaseUrl|..] == Quote.Quote(b.id);
  }
}
