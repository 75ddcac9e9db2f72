/**
 * Parsed JSON values as JavaScript code sees them: property reads that may
 * hit `null` or come back `undefined`, truthiness, and the `||` default chain.
 */
module Js {
  import opened Wrappers

  /**
   * A value produced by `JSON.parse`. An object is its list of own
   * properties in `Object.entries` enumeration order; JSON numbers never
   * include `NaN`, so a real number is enough.
   */
  datatype Json =
    | Null
    | Bool(b: bool)
    | Num(n: real)
    | Str(s: string)
    | Arr(items: seq<Json>)
    | Obj(members: seq<Member>)

  datatype Member = Member(key: string, value: Json)

  /** The runtime `TypeError`s the code can raise on a parsed value. */
  datatype TypeError =
    | PropertyOfNull(key: string)     // `null.<key>`
    | NotAString(value: Json)         // a string method called on a non-string

  /** The message V8 gives the `TypeError` of reading `key` from `null`. */
  function NullReadMessage(key: string): string {
    "Cannot read properties of null (reading '" + key + "')"
  }

  /** JavaScript truthiness; `None` is `undefined`. */
  predicate Truthy(v: Option<Json>) {
    match v
    case None => false
    case Some(Null) => false
    case Some(Bool(b)) => b
    case Some(Num(n)) => n != 0.0
    case Some(Str(s)) => s != ""
    case Some(_) => true
  }

  /** The value of the own property `key`, or `undefined`. */
  function Lookup(members: seq<Member>, key: string): (r: Option<Json>)
    ensures r.None? <==> forall i :: 0 <= i < |members| ==> members[i].key != key
    ensures r.Some? ==> exists i :: 0 <= i < |members| && members[i] == Member(key, r.value)
    decreases |members|
  {
    if |members| == 0 then None
    else if members[0].key == key then Some(members[0].value)
    else Lookup(members[1..], key)
  }

  /** Properties appended after the first `key` do not change what reading `key` gives. */
  lemma {:induction false} LookupAppend(a: seq<Member>, b: seq<Member>, key: string)
    ensures Lookup(a + b, key) == if Lookup(a, key).Some? then Lookup(a, key) else Lookup(b, key)
    decreases |a|
  {
    if |a| == 0 {
      assert a + b == b;
    } else {
      assert (a + b)[1..] == a[1..] + b;
      LookupAppend(a[1..], b, key);
    }
  }

  /**
   * `v[key]` on a value known not to be `null`: only objects have the
   * properties this code reads, every other value yields `undefined`.
   */
  function Field(v: Json, key: string): Option<Json> {
    if v.Obj? then Lookup(v.members, key) else None
  }

  /** `v[key]` on any parsed value: reading a property of `null` throws. */
  function Get(v: Json, key: string): (r: Result<Option<Json>, TypeError>)
    ensures r.Failure? <==> v.Null?
    ensures r.Success? ==> r.value == Field(v, key)
  {
    if v.Null? then Failure(PropertyOfNull(key)) else Success(Field(v, key))
  }

  /** `c0 || c1 || ... || last`: the first truthy candidate, else `last`. */
  function FirstTruthy(candidates: seq<Option<Json>>, last: Json): (r: Json)
    ensures (forall i :: 0 <= i < |candidates| ==> !Truthy(candidates[i])) ==> r == last
    ensures forall i ::
              && 0 <= i < |candidates| && Truthy(candidates[i])
              && (forall j :: 0 <= j < i ==> !Truthy(candidates[j]))
              ==> r == candidates[i].value
    decreases |candidates|
  {
    if |candidates| == 0 then last
    else if Truthy(candidates[0]) then candidates[0].value
    else FirstTruthy(candidates[1..], last)
  }
}
