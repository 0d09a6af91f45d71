/**
 * The JavaScript values the client code receives (request bodies, query
 * filters, image references) and the two tests it applies to them:
 * truthiness (`if (v)`) and definedness (`v !== undefined && v !== null`).
 * Numbers are integers; `NaN`, fractions and objects with non-string
 * properties are not represented.
 */
module Js {
  import opened Text
  import Query

  datatype Value =
    | Undefined
    | Null
    | Bool(b: bool)
    | Num(n: int)
    | Str(s: string)
    | Obj(props: map<string, string>)

  /** JavaScript truthiness: `undefined`, `null`, `false`, `0` and `""` are falsy. */
  predicate Truthy(v: Value) {
    match v
    case Undefined => false
    case Null => false
    case Bool(b) => b
    case Num(n) => n != 0
    case Str(s) => s != ""
    case Obj(_) => true
  }

  /** `v !== undefined && v !== null` */
  predicate IsDefined(v: Value) {
    !v.Undefined? && !v.Null?
  }

  /** `String(v)`, the conversion `FormData.append` and `URLSearchParams.append` apply. */
  function ToJsString(v: Value): string {
    match v
    case Undefined => "undefined"
    case Null => "null"
    case Bool(b) => if b then "true" else "false"
    case Num(n) => IntToString(n)
    case Str(s) => s
    case Obj(_) => "[object Object]"
  }

  /** `obj[key]` read as a string, where a missing property reads as the falsy `""`. */
  function Prop(props: map<string, string>, key: string): string {
    if key in props then props[key] else ""
  }

  /** A request-body field that holds tags: absent, a string, or an array of strings. */
  datatype TagsInput = NoTags | TagText(text: string) | TagList(list: seq<string>)

  /**
   * A plain object used as a dictionary: its own keys in insertion order
   * and their values. Assigning an existing key keeps its place.
   */
  datatype Dict<T> = Dict(keys: seq<string>, entries: map<string, T>)

  ghost predicate WellFormed<T>(d: Dict<T>) {
    && (forall k :: multiset(d.keys)[k] <= 1)
    && (forall k :: k in d.entries <==> k in d.keys)
  }

  /** `{}` */
  function EmptyDict<T>(): (d: Dict<T>)
    ensures WellFormed(d) && d.keys == [] && d.entries == map[]
  {
    Dict([], map[])
  }

  /** `d[k] = v`: a new key goes last, an existing one keeps its place. */
  function Assign<T>(d: Dict<T>, k: string, v: T): (r: Dict<T>)
    requires WellFormed(d)
    ensures WellFormed(r) && r.entries == d.entries[k := v]
    ensures k in d.entries ==> r.keys == d.keys
    ensures k !in d.entries ==> r.keys == d.keys + [k]
  {
    if k in d.entries then Dict(d.keys, d.entries[k := v]) else Dict(d.keys + [k], d.entries[k := v])
  }

  /**
   * `{...d, ...e}`: the keys of `d` in their order, then those of `e` that
   * `d` lacks in theirs; a key of `e` takes `e`'s value.
   */
  function Spread<T>(d: Dict<T>, e: Dict<T>): (r: Dict<T>)
    requires WellFormed(d) && WellFormed(e)
    ensures WellFormed(r)
    ensures |d.keys| <= |r.keys| && r.keys[..|d.keys|] == d.keys
    ensures Query.IsSubsequence(r.keys[|d.keys|..], e.keys)
    ensures forall k :: k in r.entries <==> k in d.entries || k in e.entries
    ensures forall k :: k in e.entries ==> r.entries[k] == e.entries[k]
    ensures forall k :: k in d.entries && k !in e.entries ==> r.entries[k] == d.entries[k]
  {
    var added := Query.Filter(e.keys, k => k !in d.entries);
    SpreadKeys(d, e, added);
    Dict(d.keys + added, d.entries + e.entries)
  }

  /** The keys of `e` that `d` lacks, appended to those of `d`, are the keys of the merged entries, once each. */
  lemma SpreadKeys<T>(d: Dict<T>, e: Dict<T>, added: seq<string>)
    requires WellFormed(d) && WellFormed(e)
    requires forall k :: multiset(added)[k] == if k !in d.entries then multiset(e.keys)[k] else 0
    requires forall k :: k in added <==> k in e.keys && k !in d.entries
    ensures WellFormed(Dict(d.keys + added, d.entries + e.entries))
    ensures (d.keys + added)[..|d.keys|] == d.keys && (d.keys + added)[|d.keys|..] == added
  {
    var keys := d.keys + added;
    assert keys[..|d.keys|] == d.keys && keys[|d.keys|..] == added;
    forall k
      ensures multiset(keys)[k] <= 1
    {
      assert multiset(keys)[k] == multiset(d.keys)[k] + multiset(added)[k];
      if k in d.keys {
        assert k in d.entries;
      }
    }
  }
}
