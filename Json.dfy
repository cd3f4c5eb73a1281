/**
 * JSON values as Python's `json.loads` returns them: `None`, `bool`, numbers,
 * `str`, `list` and `dict`.
 */
module Json {

  /** A decoded JSON value. Integers stand for every JSON number: nothing in the
      model looks at a number's value. An object keeps its members in text order. */
  datatype JsonValue =
    | JNull
    | JBool(b: bool)
    | JNumber(n: int)
    | JString(s: string)
    | JArray(elements: seq<JsonValue>)
    | JObject(members: seq<Member>)

  datatype Member = Member(key: string, value: JsonValue)

  /** Member `i` carries the last occurrence of its key. */
  predicate IsLastKey(ms: seq<Member>, i: int)
    requires 0 <= i < |ms|
  {
    forall j :: i < j < |ms| ==> ms[j].key != ms[i].key
  }

  /** The Python `dict` built from an object's members: its keys are the members'
      keys, and a key that occurs more than once maps to its last value. */
  function AsDict(ms: seq<Member>): (d: map<string, JsonValue>)
    ensures forall k :: k in d <==> exists i :: 0 <= i < |ms| && ms[i].key == k
    ensures forall i :: 0 <= i < |ms| && IsLastKey(ms, i) ==> ms[i].key in d && d[ms[i].key] == ms[i].value
  {
    if ms == [] then map[]
    else
      var rest := AsDict(ms[1..]);
      var d := if ms[0].key in rest then rest else rest[ms[0].key := ms[0].value];
      DictKeysStep(ms, rest, d);
      DictValuesStep(ms, rest, d);
      d
  }

  /** The keys of the dict of `ms` are those of its tail's plus its head's. */
  lemma DictKeysStep(ms: seq<Member>, rest: map<string, JsonValue>, d: map<string, JsonValue>)
    requires ms != []
    requires forall k :: k in rest <==> exists i :: 0 <= i < |ms| - 1 && ms[1..][i].key == k
    requires d == if ms[0].key in rest then rest else rest[ms[0].key := ms[0].value]
    ensures forall k :: k in d <==> exists i :: 0 <= i < |ms| && ms[i].key == k
  {
    forall k ensures k in d <==> exists i :: 0 <= i < |ms| && ms[i].key == k {
      if k in rest {
        var i :| 0 <= i < |ms| - 1 && ms[1..][i].key == k;
        assert ms[i + 1].key == k;
      }
      if k != ms[0].key && exists i :: 0 <= i < |ms| && ms[i].key == k {
        var i :| 0 <= i < |ms| && ms[i].key == k;
        assert i > 0 && ms[1..][i - 1].key == k;
      }
    }
  }

  /** A key's last member in `ms` gives its value, in the tail's dict or, for the
      head, in the one added. */
  lemma DictValuesStep(ms: seq<Member>, rest: map<string, JsonValue>, d: map<string, JsonValue>)
    requires ms != []
    requires forall i :: 0 <= i < |ms| - 1 && IsLastKey(ms[1..], i) ==>
      ms[1..][i].key in rest && rest[ms[1..][i].key] == ms[1..][i].value
    requires forall k :: k in rest ==> exists i :: 0 <= i < |ms| - 1 && ms[1..][i].key == k
    requires d == if ms[0].key in rest then rest else rest[ms[0].key := ms[0].value]
    ensures forall i :: 0 <= i < |ms| && IsLastKey(ms, i) ==> ms[i].key in d && d[ms[i].key] == ms[i].value
  {
    forall i | 0 <= i < |ms| && IsLastKey(ms, i) ensures ms[i].key in d && d[ms[i].key] == ms[i].value {
      if i > 0 {
        assert ms[1..][i - 1] == ms[i];
        assert IsLastKey(ms[1..], i - 1);
      }
    }
  }

  /** Some member of `ms` has the key `k`. */
  predicate HasKey(ms: seq<Member>, k: string) {
    exists i :: 0 <= i < |ms| && ms[i].key == k
  }

  /** Every key of `ms` has a last member. */
  lemma {:induction false} LastKeyExists(ms: seq<Member>, i: int)
    requires 0 <= i < |ms|
    ensures exists j :: i <= j < |ms| && ms[j].key == ms[i].key && IsLastKey(ms, j)
    decreases |ms| - i
  {
    if !IsLastKey(ms, i) {
      var j :| i < j < |ms| && ms[j].key == ms[i].key;
      LastKeyExists(ms, j);
    }
  }

  /** The number of objects in a value, the value itself included. */
  function ObjectCount(v: JsonValue): nat {
    match v
    case JArray(xs) => ElementsObjectCount(xs)
    case JObject(ms) => 1 + MembersObjectCount(ms)
    case _ => 0
  }

  function ElementsObjectCount(xs: seq<JsonValue>): nat {
    if xs == [] then 0 else ObjectCount(xs[0]) + ElementsObjectCount(xs[1..])
  }

  function MembersObjectCount(ms: seq<Member>): nat {
    if ms == [] then 0 else ObjectCount(ms[0].value) + MembersObjectCount(ms[1..])
  }

  /** An object none of whose member values holds an object. */
  predicate IsFlatObject(v: JsonValue) {
    v.JObject? && forall i :: 0 <= i < |v.members| ==> ObjectCount(v.members[i].value) == 0
  }

  /** An object with exactly one object in it, itself, is flat. */
  lemma FlatWhenSingleObject(v: JsonValue)
    requires v.JObject? && ObjectCount(v) == 1
    ensures IsFlatObject(v)
  {
    NoObjectsInMembers(v.members);
  }

  lemma {:induction false} NoObjectsInMembers(ms: seq<Member>)
    requires MembersObjectCount(ms) == 0
    ensures forall i :: 0 <= i < |ms| ==> ObjectCount(ms[i].value) == 0
  {
    if ms != [] {
      NoObjectsInMembers(ms[1..]);
      assert forall i :: 1 <= i < |ms| ==> ms[i] == ms[1..][i - 1];
    }
  }
}
