/** Parsed JSON values and the lookups the collector makes in them. */
module Json {
  import opened Wrappers

  datatype Member = Member(key: string, value: Json)

  datatype Json =
    | Null
    | Boolean(flag: bool)
    | Integer(number: int)
    | Fraction(value: real)
    | Text(text: string)
    | Array(items: seq<Json>)
    | Object(members: seq<Member>)

  /** The members of a mapping; nothing for any other value. */
  function Mapping(v: Json): seq<Member> {
    if v.Object? then v.members else []
  }

  /** The items of a list; nothing for any other value. */
  function Sequence(v: Json): seq<Json> {
    if v.Array? then v.items else []
  }

  function Find(members: seq<Member>, key: string): Option<Json> {
    if members == [] then None
    else if members[0].key == key then Some(members[0].value)
    else Find(members[1..], key)
  }

  /** `mapping.get(key)`, where an absent key reads as null. */
  function Get(v: Json, key: string): Json {
    match Find(Mapping(v), key)
    case Some(found) => found
    case None => Null
  }

  predicate Has(v: Json, key: string) {
    Find(Mapping(v), key).Some?
  }

  function Values(members: seq<Member>): seq<Json> {
    seq(|members|, i requires 0 <= i < |members| => members[i].value)
  }
  // ----- what a lookup finds, by positions

  predicate FirstKey(members: seq<Member>, key: string, i: int) {
    0 <= i < |members| && members[i].key == key && forall j | 0 <= j < i :: members[j].key != key
  }

  /** Following the keys leads through nested mappings to `x`. */
  ghost predicate Holds(v: Json, path: seq<string>, x: Json)
    decreases |path|
  {
    if path == [] then v == x
    else v.Object? && exists i :: FirstKey(v.members, path[0], i) && Holds(v.members[i].value, path[1..], x)
  }

  lemma {:induction false} FindIsFirst(members: seq<Member>, key: string)
    ensures match Find(members, key)
            case Some(x) => exists i :: FirstKey(members, key, i) && members[i].value == x
            case None => forall m | m in members :: m.key != key
  {
    if members != [] && members[0].key != key {
      FindIsFirst(members[1..], key);
      if Find(members[1..], key).Some? {
        var i :| FirstKey(members[1..], key, i) && members[1..][i].value == Find(members, key).value;
        assert FirstKey(members, key, i + 1);
      } else {
        assert members == [members[0]] + members[1..];
      }
    } else if members != [] {
      assert FirstKey(members, key, 0);
    }
  }

  lemma GetAt(v: Json, key: string, i: int)
    requires v.Object? && FirstKey(v.members, key, i)
    ensures Has(v, key) && Get(v, key) == v.members[i].value
  {
    FindIsFirst(v.members, key);
    assert v.members[i] in v.members;
  }

  lemma HoldsStep(v: Json, path: seq<string>, x: Json)
    requires path != []
    ensures Holds(v, path, x) <==> Has(v, path[0]) && Holds(Get(v, path[0]), path[1..], x)
  {
    FindIsFirst(Mapping(v), path[0]);
    if v.Object? && Has(v, path[0]) {
      var i :| FirstKey(v.members, path[0], i) && v.members[i].value == Get(v, path[0]);
      assert forall j | FirstKey(v.members, path[0], j) :: j == i;
    }
  }

  lemma HoldsOne(v: Json, a: string, x: Json)
    ensures Holds(v, [a], x) <==> Has(v, a) && Get(v, a) == x
    ensures !x.Null? ==> (Holds(v, [a], x) <==> Get(v, a) == x)
  {
    HoldsStep(v, [a], x);
  }

  lemma HoldsThree(v: Json, a: string, b: string, c: string, x: Json)
    requires !x.Null?
    ensures Holds(v, [a, b, c], x) <==> Get(Get(Get(v, a), b), c) == x
  {
    HoldsStep(v, [a, b, c], x);
    assert [a, b, c][1..] == [b, c] && [b, c][1..] == [c];
    HoldsStep(Get(v, a), [b, c], x);
    HoldsOne(Get(Get(v, a), b), c, x);
  }
}
