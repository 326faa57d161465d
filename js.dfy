/** The JavaScript values the core passes around: scalars with JavaScript's
    truthiness, plain objects (request bodies, JWT payloads, database rows) as
    maps from property name to value, and a mutable object for a request body
    that a model writes to. */
module Js {

  /** A JavaScript scalar. Numbers are integers here (no NaN, no fractions). */
  datatype Value = Undefined | Null | Bool(b: bool) | Num(n: int) | Str(s: string)

  /** JavaScript's ToBoolean: undefined, null, false, 0 and "" are falsy. */
  predicate Truthy(v: Value) {
    match v
    case Undefined => false
    case Null => false
    case Bool(b) => b
    case Num(n) => n != 0
    case Str(s) => s != ""
  }

  /** `a || b`: the left operand when it is truthy, otherwise the right one. */
  function Or(a: Value, b: Value): (r: Value)
    ensures Truthy(a) ==> r == a
    ensures !Truthy(a) ==> r == b
  {
    if Truthy(a) then a else b
  }

  /** A plain object: its own properties and their values. */
  type Obj = map<string, Value>

  /** Property access `o.k`: undefined when `o` has no property `k`. */
  function Get(o: Obj, k: string): Value {
    if k in o then o[k] else Undefined
  }

  /** The object holding exactly the properties `keys`, read from `o` (a SQL
      projection, or an object literal built from another object). */
  function Project(o: Obj, keys: set<string>): (r: Obj)
    ensures r.Keys == keys
    ensures forall k :: k in keys ==> r[k] == Get(o, k)
  {
    map k | k in keys :: Get(o, k)
  }

  /** `delete o.k`. */
  function Delete(o: Obj, k: string): (r: Obj)
    ensures r.Keys == o.Keys - {k}
    ensures forall j :: j in r ==> r[j] == o[j]
  {
    o - {k}
  }

  /** The own properties of an object, in the order `Object.keys` reports
      them. The model takes that order as given; no result depends on it. */
  type Props = seq<(string, Value)>

  predicate DistinctKeys(p: Props) {
    forall i, j :: 0 <= i < j < |p| ==> p[i].0 != p[j].0
  }

  /** The property names of an object given by its ordered properties. */
  function KeysOf(p: Props): set<string> {
    set i | 0 <= i < |p| :: p[i].0
  }

  /** `o.k` on an object given by its ordered properties. */
  function Lookup(p: Props, k: string): Value {
    if p == [] then Undefined
    else if p[0].0 == k then p[0].1
    else Lookup(p[1..], k)
  }

  /** `o.k = v` on an object that already has the property `k`: the value is
      replaced in place and the property keeps its position. */
  function Assign(p: Props, k: string, v: Value): (r: Props)
    ensures |r| == |p|
    ensures forall i :: 0 <= i < |p| ==> r[i].0 == p[i].0
    ensures forall i :: 0 <= i < |p| && p[i].0 != k ==> r[i] == p[i]
    ensures forall i :: 0 <= i < |p| && p[i].0 == k ==> r[i].1 == v
  {
    if p == [] then []
    else [(p[0].0, if p[0].0 == k then v else p[0].1)] + Assign(p[1..], k, v)
  }

  /** A property the object does not have reads as undefined. */
  lemma {:induction false} LookupMissing(p: Props, k: string)
    requires k !in KeysOf(p)
    ensures Lookup(p, k) == Undefined
  {
    if p != [] {
      assert KeysOf(p[1..]) <= KeysOf(p) by {
        forall x | x in KeysOf(p[1..]) ensures x in KeysOf(p) {
          var i :| 0 <= i < |p[1..]| && p[1..][i].0 == x;
          assert p[i + 1].0 == x;
        }
      }
      assert p[0].0 in KeysOf(p);
      LookupMissing(p[1..], k);
    }
  }

  /** A property that reads as something other than undefined is present. */
  lemma LookupPresent(p: Props, k: string)
    requires Lookup(p, k) != Undefined
    ensures k in KeysOf(p)
  {
    if k !in KeysOf(p) {
      LookupMissing(p, k);
    }
  }

  lemma {:induction false} AssignLookup(p: Props, k: string, v: Value, j: string)
    requires k in KeysOf(p)
    ensures Lookup(Assign(p, k, v), j) == if j == k then v else Lookup(p, j)
  {
    if p[0].0 != k {
      assert k in KeysOf(p[1..]) by {
        var i :| 0 <= i < |p| && p[i].0 == k;
        assert p[1..][i - 1] == p[i];
      }
      AssignLookup(p[1..], k, v, j);
      assert Assign(p, k, v)[1..] == Assign(p[1..], k, v);
    }
    else if j != k {
      assert Assign(p, k, v)[1..] == Assign(p[1..], k, v);
      AssignOthers(p[1..], k, v, j);
    }
  }

  lemma {:induction false} AssignOthers(p: Props, k: string, v: Value, j: string)
    requires j != k
    ensures Lookup(Assign(p, k, v), j) == Lookup(p, j)
  {
    if p != [] {
      assert Assign(p, k, v)[1..] == Assign(p[1..], k, v);
      AssignOthers(p[1..], k, v, j);
    }
  }

  /** A request body or other plain object that the code mutates. */
  class JsObject {
    var props: Props

    ghost predicate Valid()
      reads this
    {
      DistinctKeys(props)
    }

    constructor (props: Props)
      requires DistinctKeys(props)
      ensures Valid() && this.props == props
    {
      this.props := props;
    }
  }
}
