/**
 * The JavaScript values the session code handles: everything `JSON.parse`
 * can produce. An object is the ordered list of its own properties; a
 * property whose value is `undefined` is represented by its absence.
 */
module Json {
  import opened Wrappers
  import Decimal

  datatype Json =
    | JNull
    | JBool(b: bool)
    | JNum(n: int)
    | JStr(s: string)
    | JArr(items: seq<Json>)
    | JObj(members: seq<Member>)

  datatype Member = Member(key: string, value: Json)

  /** The own properties of a plain object, in insertion order. */
  type Obj = seq<Member>

  function Keys(o: Obj): (ks: seq<string>)
    ensures |ks| == |o| && forall i :: 0 <= i < |o| ==> ks[i] == o[i].key
  {
    if o == [] then [] else [o[0].key] + Keys(o[1..])
  }

  predicate HasKey(o: Obj, k: string)
  {
    exists i :: 0 <= i < |o| && o[i].key == k
  }

  /** A JavaScript object never has two properties with the same name. */
  predicate UniqueKeys(o: Obj)
  {
    forall i, j :: 0 <= i < j < |o| ==> o[i].key != o[j].key
  }

  /** Every object nested in `j` has unique keys, as every real JavaScript value does. */
  predicate WellFormed(j: Json)
  {
    match j
    case JArr(items) => forall i :: 0 <= i < |items| ==> WellFormed(items[i])
    case JObj(ms) => UniqueKeys(ms) && forall i :: 0 <= i < |ms| ==> WellFormed(ms[i].value)
    case _ => true
  }

  /** `o[k]`: the value of property `k`, `None` standing for `undefined`. */
  function Get(o: Obj, k: string): (r: Option<Json>)
    ensures r.Some? <==> HasKey(o, k)
    ensures r.Some? ==> exists i :: 0 <= i < |o| && o[i] == Member(k, r.value)
  {
    if o == [] then None
    else if o[0].key == k then Some(o[0].value)
    else Get(o[1..], k)
  }

  /** Looking a property up in an object given member by member. */
  lemma {:induction false} GetCons(m: Member, rest: Obj, k: string)
    ensures Get([m] + rest, k) == if m.key == k then Some(m.value) else Get(rest, k)
  {
    assert ([m] + rest)[1..] == rest;
  }

  /** `o` without any property named `k` (`delete o[k]`). */
  function Remove(o: Obj, k: string): (r: Obj)
    ensures !HasKey(r, k)
    ensures forall k' :: k' != k ==> Get(r, k') == Get(o, k')
    ensures forall i :: 0 <= i < |r| ==> r[i] in o
    ensures UniqueKeys(o) ==> UniqueKeys(r)
    ensures !HasKey(o, k) ==> r == o
  {
    if o == [] then []
    else if o[0].key == k then Remove(o[1..], k)
    else [o[0]] + Remove(o[1..], k)
  }

  /**
   * `{...o, [k]: v}`: an existing property keeps its position and takes the
   * new value; a new one is appended; assigning `undefined` removes it.
   */
  function Assign(o: Obj, k: string, v: Option<Json>): (r: Obj)
    ensures Get(r, k) == v
    ensures forall k' :: k' != k ==> Get(r, k') == Get(o, k')
    ensures forall i :: 0 <= i < |r| ==> (v.Some? && r[i] == Member(k, v.value)) || r[i] in o
    ensures UniqueKeys(o) ==> UniqueKeys(r)
  {
    if o == [] then (if v.Some? then [Member(k, v.value)] else [])
    else if o[0].key == k then (if v.Some? then [Member(k, v.value)] + Remove(o[1..], k) else Remove(o[1..], k))
    else [o[0]] + Assign(o[1..], k, v)
  }

  /** Assigning past a different first property leaves that property in front. */
  lemma {:induction false} AssignCons(o: Obj, k: string, v: Option<Json>)
    requires o != [] && o[0].key != k
    ensures Assign(o, k, v) == [o[0]] + Assign(o[1..], k, v)
  {
  }

  /**
   * `o.k` for the keys the session code looks up (`_id`, `id`, `exp`):
   * only plain objects have them. Strings and arrays do have other named
   * properties (`length`), which no caller asks for.
   */
  function Property(j: Json, k: string): (r: Option<Json>)
    ensures r.Some? ==> j.JObj?
  {
    if j.JObj? then Get(j.members, k) else None
  }

  /** JavaScript truthiness: `null`, `false`, `0`, `""` and `undefined` are falsy. */
  function Truthy(v: Option<Json>): (b: bool)
    ensures v.None? || v == Some(JNull) ==> !b
    ensures v.Some? && (v.value.JArr? || v.value.JObj?) ==> b
    ensures v.Some? && v.value.JStr? ==> (b <==> v.value.s != "")
    ensures v.Some? && v.value.JNum? ==> (b <==> v.value.n != 0)
    ensures v.Some? && v.value.JBool? ==> (b <==> v.value.b)
  {
    match v
    case None => false
    case Some(JNull) => false
    case Some(JBool(b)) => b
    case Some(JNum(n)) => n != 0
    case Some(JStr(s)) => s != ""
    case Some(_) => true
  }

  /** `a ?? b`: `b` when `a` is `null` or `undefined`. */
  function Coalesce(a: Option<Json>, b: Json): (r: Json)
    ensures (a.None? || a == Some(JNull)) ==> r == b
    ensures (a.Some? && a.value != JNull) ==> r == a.value
  {
    if a.None? || a.value == JNull then b else a.value
  }

  /** The properties index `i` onwards of an array-like value get under object spread. */
  function IndexedFrom(items: seq<Json>, i: nat): (o: Obj)
    requires i <= |items|
    ensures |o| == |items| - i
    ensures forall p :: 0 <= p < |o| ==> o[p] == Member(Decimal.NatToString(i + p), items[i + p])
    decreases |items| - i
  {
    if i == |items| then [] else [Member(Decimal.NatToString(i), items[i])] + IndexedFrom(items, i + 1)
  }

  /**
   * `{...j}`: the own enumerable properties of `j`. Objects give their
   * properties, arrays and strings one property per index, and `null`,
   * booleans and numbers nothing.
   */
  function Spread(j: Json): (o: Obj)
    ensures j.JObj? ==> o == j.members
    ensures (j.JNull? || j.JBool? || j.JNum?) ==> o == []
  {
    match j
    case JObj(ms) => ms
    case JArr(items) => IndexedFrom(items, 0)
    case JStr(s) => IndexedFrom(seq(|s|, i requires 0 <= i < |s| => JStr([s[i]])), 0)
    case _ => []
  }
}
