/** JavaScript values as JSON produces them, and plain objects as ordered lists of entries. */
module Js {
  import opened Base
  import opened Strings

  /**
   * A value `JSON.parse` can return. A number is kept as the text `String(n)`
   * gives for it (no arithmetic is ever done on one); an object keeps its
   * entries in the order `Object.keys` lists them.
   */
  datatype Json =
    | JNull
    | JBool(b: bool)
    | JNum(repr: string)
    | JStr(s: string)
    | JArr(items: seq<Json>)
    | JObj(entries: seq<(string, Json)>)

  /** JavaScript truthiness (`!!j`). The only falsy number JSON can produce is zero, printed "0". */
  predicate Truthy(j: Json)
  {
    match j
    case JNull => false
    case JBool(b) => b
    case JNum(r) => r != "0"
    case JStr(s) => s != ""
    case JArr(_) => true
    case JObj(_) => true
  }

  /** `String(j)`, which is also what a template literal `${j}` inserts. */
  function ToJsString(j: Json): string
  {
    match j
    case JNull => "null"
    case JBool(b) => if b then "true" else "false"
    case JNum(r) => r
    case JStr(s) => s
    case JArr(xs) => JoinItems(xs)
    case JObj(_) => "[object Object]"
  }

  /** `Array.prototype.join(',')`, which prints null elements as empty strings. */
  function JoinItems(xs: seq<Json>): string
  {
    if xs == [] then ""
    else (if xs[0].JNull? then "" else ToJsString(xs[0])) + (if |xs| == 1 then "" else "," + JoinItems(xs[1..]))
  }

  /** Every key appears once, as in a JavaScript object. */
  predicate DistinctKeys<V>(es: seq<(string, V)>)
  {
    forall i, j | 0 <= i < j < |es| :: es[i].0 != es[j].0
  }

  /** `o[k]` on an own property: the value of the first entry with that key; None is `undefined`. */
  function Get<V>(es: seq<(string, V)>, k: string): (r: Option<V>)
    ensures r.None? <==> forall i | 0 <= i < |es| :: es[i].0 != k
    ensures r.Some? ==> exists i | 0 <= i < |es| :: es[i] == (k, r.value)
  {
    if es == [] then None
    else if es[0].0 == k then Some(es[0].1)
    else Get(es[1..], k)
  }

  lemma GetDistinct<V>(es: seq<(string, V)>, i: nat)
    requires DistinctKeys(es) && i < |es|
    ensures Get(es, es[i].0) == Some(es[i].1)
  {
    if i > 0 {
      GetDistinct(es[1..], i - 1);
    }
  }

  /**
   * `Object.assign(o, {[k]: v})`: an existing key keeps its place and takes the
   * new value, a new key is added at the end (where JavaScript puts a key that is
   * not an array index; array-index keys, which it lists first, are not modelled).
   */
  function Put<V>(es: seq<(string, V)>, k: string, v: V): (r: seq<(string, V)>)
    ensures Get(r, k) == Some(v)
    ensures forall k' | k' != k :: Get(r, k') == Get(es, k')
  {
    if es == [] then [(k, v)]
    else if es[0].0 == k then [(k, v)] + es[1..]
    else [es[0]] + Put(es[1..], k, v)
  }

  /** Put on a key already there keeps every key in its place. */
  lemma {:induction false} PutKeepsKeys<V>(es: seq<(string, V)>, k: string, v: V)
    requires Get(es, k).Some?
    ensures |Put(es, k, v)| == |es| && forall i | 0 <= i < |es| :: Put(es, k, v)[i].0 == es[i].0
  {
    if es[0].0 != k {
      PutKeepsKeys(es[1..], k, v);
      var r, t := Put(es, k, v), Put(es[1..], k, v);
      assert r == [es[0]] + t;
      forall i | 0 <= i < |es| ensures r[i].0 == es[i].0 {
        if i > 0 {
          assert r[i] == t[i - 1] && es[i] == es[1..][i - 1];
        }
      }
    }
  }

  /** Put on a new key appends it. */
  lemma {:induction false} PutAppends<V>(es: seq<(string, V)>, k: string, v: V)
    requires Get(es, k).None?
    ensures Put(es, k, v) == es + [(k, v)]
  {
    if es != [] {
      PutAppends(es[1..], k, v);
      assert [es[0]] + (es[1..] + [(k, v)]) == es + [(k, v)];
    }
  }

  /** Put keeps keys distinct. */
  lemma PutDistinct<V>(es: seq<(string, V)>, k: string, v: V)
    requires DistinctKeys(es)
    ensures DistinctKeys(Put(es, k, v))
  {
    var r := Put(es, k, v);
    if Get(es, k).None? {
      PutAppends(es, k, v);
      forall i, j | 0 <= i < j < |r| ensures r[i].0 != r[j].0 {
        if j == |es| {
          assert r[i] == es[i];
        }
      }
    } else {
      PutKeepsKeys(es, k, v);
      forall i, j | 0 <= i < j < |r| ensures r[i].0 != r[j].0 {
        assert r[i].0 == es[i].0 && r[j].0 == es[j].0;
      }
    }
  }
}
