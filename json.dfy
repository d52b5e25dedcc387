/** A parsed JSON document as `json.load` hands it to the services, and the
    handful of Python operations the services apply to such values. */
module Json {
  import opened Results
  import opened Text
  import Ordering

  /** JSON numbers only matter here for their truthiness and for counts, so
      they are integers. An object is its members in document order. */
  datatype Json =
    | Null
    | Bool(b: bool)
    | Num(n: int)
    | Str(s: string)
    | Arr(items: seq<Json>)
    | Obj(fields: seq<(string, Json)>)

  /** Why no value is produced: the Python code raises (a TypeError or
      AttributeError on a value of an unexpected shape, a KeyError), or a
      number, boolean or null is used as a dictionary key, which Python accepts
      and this model does not. */
  datatype Fault = Crash | NonStringKey

  /** Some member of the object has key `k`. */
  predicate HasKey(fields: seq<(string, Json)>, k: string) {
    exists i :: 0 <= i < |fields| && fields[i].0 == k
  }

  /** `d[k]` on a dict built by `json.load`: a repeated key keeps its last value. */
  function Lookup(fields: seq<(string, Json)>, k: string): (r: Option<Json>)
    ensures r.Some? <==> HasKey(fields, k)
    ensures r.Some? ==> exists i :: 0 <= i < |fields| && fields[i] == (k, r.value)
    decreases |fields|
  {
    if fields == [] then None
    else if fields[|fields| - 1].0 == k then Some(fields[|fields| - 1].1)
    else
      var r := Lookup(fields[..|fields| - 1], k);
      assert HasKey(fields, k) ==> HasKey(fields[..|fields| - 1], k);
      r
  }

  /** In an object whose keys are distinct, each member is what its key looks up. */
  lemma {:induction false} LookupDistinct(fields: seq<(string, Json)>, i: nat)
    requires forall a, b :: 0 <= a < b < |fields| ==> fields[a].0 != fields[b].0
    requires i < |fields|
    ensures Lookup(fields, fields[i].0) == Some(fields[i].1)
    decreases |fields|
  {
    if i < |fields| - 1 {
      LookupDistinct(fields[..|fields| - 1], i);
    }
  }

  /** Members appended after the last one with key `k` do not change its lookup. */
  lemma {:induction false} LookupAppendOther(fields: seq<(string, Json)>, more: seq<(string, Json)>, k: string)
    requires forall i :: 0 <= i < |more| ==> more[i].0 != k
    ensures Lookup(fields + more, k) == Lookup(fields, k)
    decreases |more|
  {
    if more != [] {
      var init := more[..|more| - 1];
      assert (fields + more)[..|fields + more| - 1] == fields + init;
      LookupAppendOther(fields, init, k);
    } else {
      assert fields + more == fields;
    }
  }

  /** `d.get(k, default)` on a dict. */
  function GetOr(fields: seq<(string, Json)>, k: string, default: Json): (r: Json)
    ensures HasKey(fields, k) ==> Some(r) == Lookup(fields, k)
    ensures !HasKey(fields, k) ==> r == default
  {
    match Lookup(fields, k)
    case Some(v) => v
    case None => default
  }

  /** The keys of a dict built by `json.load`, each once, in document order. */
  function Keys(fields: seq<(string, Json)>): seq<string> {
    Ordering.FirstSeen(seq(|fields|, i requires 0 <= i < |fields| => fields[i].0))
  }

  /** Python's truth value of a parsed JSON value. */
  predicate Truthy(v: Json) {
    match v
    case Null => false
    case Bool(b) => b
    case Num(n) => n != 0
    case Str(s) => s != []
    case Arr(items) => items != []
    case Obj(fields) => fields != []
  }

  /** Python's `needle in v` for a string `needle`: a key of a dict, an element
      of a list, a substring of a str; other values raise a TypeError. */
  function Contains(v: Json, needle: string): (r: Result<bool, Fault>)
    ensures r.Err? <==> v.Null? || v.Bool? || v.Num?
    ensures v.Arr? ==> r == Ok(Str(needle) in v.items)
  {
    match v
    case Obj(fields) => Ok(HasKey(fields, needle))
    case Arr(items) => Ok(Str(needle) in items)
    case Str(s) => Ok(IsSubstring(needle, s))
    case _ => Err(Crash)
  }

  /** What `for x in v` visits: the elements of a list, the keys of a dict,
      the one-character strings of a str; other values raise a TypeError. */
  function Iterate(v: Json): (r: Result<seq<Json>, Fault>)
    ensures r.Err? <==> v.Null? || v.Bool? || v.Num?
    ensures v.Arr? ==> r == Ok(v.items)
    ensures v.Obj? || v.Str? ==> forall i :: 0 <= i < |r.value| ==> r.value[i].Str?
  {
    match v
    case Arr(items) => Ok(items)
    case Obj(fields) =>
      var keys := Keys(fields);
      Ok(seq(|keys|, i requires 0 <= i < |keys| => Str(keys[i])))
    case Str(s) => Ok(seq(|s|, i requires 0 <= i < |s| => Str([s[i]])))
    case _ => Err(Crash)
  }

  /** `v.get(k, default)` where `v` may be any value: only a dict has `get`. */
  function GetAttr(v: Json, k: string, default: Json): (r: Result<Json, Fault>)
    ensures r.Ok? <==> v.Obj?
    ensures v.Obj? ==> r.value == GetOr(v.fields, k, default)
  {
    if v.Obj? then Ok(GetOr(v.fields, k, default)) else Err(Crash)
  }

  /** `v` used as a dictionary key: a str is the key itself, a list or dict is
      unhashable (TypeError), any other scalar is beyond this model. */
  function KeyOf(v: Json): (r: Result<string, Fault>)
    ensures r.Ok? <==> v.Str?
    ensures r.Ok? ==> r.value == v.s
  {
    match v
    case Str(s) => Ok(s)
    case Arr(_) => Err(Crash)
    case Obj(_) => Err(Crash)
    case _ => Err(NonStringKey)
  }
}
