/** The JavaScript values the mocks store and compare, their truthiness, and plain
    objects as insertion-ordered association lists. */
module Js {

  datatype Option<+T> = None | Some(value: T) {
    /** `x || d` for a property that may be missing. */
    function GetOr(default: T): T {
      if Some? then value else default
    }
  }

  /** What a synchronous call ends with: normal completion or a thrown `Error`. */
  datatype Outcome = Completed | Threw(message: string)

  /** A JavaScript value as far as the mocks inspect it. Numbers are integers (no NaN, no
      fractions); every object other than an array is an opaque reference. */
  datatype JsValue =
    | Undefined
    | Null
    | Boolean(b: bool)
    | Number(n: int)
    | Text(s: string)
    | List(items: seq<JsValue>)
    | Ref(id: nat)

  /** JavaScript's ToBoolean: `undefined`, `null`, `false`, `0` and `''` are falsy. */
  predicate Truthy(v: JsValue) {
    match v
    case Undefined => false
    case Null => false
    case Boolean(b) => b
    case Number(n) => n != 0
    case Text(s) => s != ""
    case List(_) => true
    case Ref(_) => true
  }

  /** `v == undefined` with loose equality. */
  predicate Nullish(v: JsValue) {
    v.Undefined? || v.Null?
  }

  /** An object's own properties in insertion order. */
  type Assoc<V> = seq<(string, V)>
  type Record = Assoc<JsValue>

  function Keys<V>(r: Assoc<V>): (ks: seq<string>)
    ensures |ks| == |r|
    ensures forall i :: 0 <= i < |r| ==> ks[i] == r[i].0
  {
    if r == [] then [] else [r[0].0] + Keys(r[1..])
  }

  /** A JavaScript object never holds the same property twice. */
  predicate UniqueKeys<V>(r: Assoc<V>) {
    r == [] || (r[0].0 !in Keys(r[1..]) && UniqueKeys(r[1..]))
  }

  /** The value stored under `k`, if any. */
  function Find<V>(r: Assoc<V>, k: string): Option<V> {
    if r == [] then None
    else if r[0].0 == k then Some(r[0].1)
    else Find(r[1..], k)
  }

  /** `Find` succeeds exactly on the keys present, and what it finds is an entry stored
      under that key. */
  lemma {:induction false} FindIn<V>(r: Assoc<V>, k: string)
    ensures Find(r, k).None? <==> k !in Keys(r)
    ensures Find(r, k).Some? ==> (k, Find(r, k).value) in r
  {
    if r != [] && r[0].0 != k {
      FindIn(r[1..], k);
      assert (k in Keys(r)) == (k in Keys(r[1..]));
    }
  }

  /** Reading a property: a missing one reads as `undefined`. */
  function Get(r: Record, k: string): JsValue {
    match Find(r, k)
    case Some(v) => v
    case None => Undefined
  }

  /** `obj[k] = v`: an existing property keeps its place, a new one goes last. */
  function Put<V>(r: Assoc<V>, k: string, v: V): (r': Assoc<V>)
    ensures Find(r', k) == Some(v)
    ensures forall k' :: k' != k ==> Find(r', k') == Find(r, k')
  {
    if r == [] then [(k, v)]
    else if r[0].0 == k then
      HeadPut(r, k, v);
      [(k, v)] + r[1..]
    else
      var tail := Put(r[1..], k, v);
      ConsPutFind(r, tail, k, v);
      [r[0]] + tail
  }

  /** `Put` keeps the order of the existing keys and adds a new one last, so it keeps keys
      unique. */
  lemma {:induction false} PutKeys<V>(r: Assoc<V>, k: string, v: V)
    ensures Keys(Put(r, k, v)) == if k in Keys(r) then Keys(r) else Keys(r) + [k]
    ensures UniqueKeys(r) ==> UniqueKeys(Put(r, k, v))
  {
    if r != [] && r[0].0 != k {
      PutKeys(r[1..], k, v);
      ConsPutKeys(r, Put(r[1..], k, v), k);
    }
  }

  /** `Put` on a record whose first property is `k`: the value is replaced in place. */
  lemma HeadPut<V>(r: Assoc<V>, k: string, v: V)
    requires r != [] && r[0].0 == k
    ensures Find([(k, v)] + r[1..], k) == Some(v)
    ensures forall k' :: k' != k ==> Find([(k, v)] + r[1..], k') == Find(r, k')
    ensures Keys([(k, v)] + r[1..]) == Keys(r)
    ensures UniqueKeys(r) ==> UniqueKeys([(k, v)] + r[1..])
  {
    var put := [(k, v)] + r[1..];
    assert put[0] == (k, v) && put[1..] == r[1..];
    assert Keys(put) == [k] + Keys(r[1..]);
    assert Keys(r) == [k] + Keys(r[1..]);
  }

  /** The step of `Put` past a first property that is not `k`: the lookups of the updated
      rest carry over to the whole. */
  lemma ConsPutFind<V>(r: Assoc<V>, tail: Assoc<V>, k: string, v: V)
    requires r != [] && r[0].0 != k
    requires Find(tail, k) == Some(v)
    requires forall k' :: k' != k ==> Find(tail, k') == Find(r[1..], k')
    ensures Find([r[0]] + tail, k) == Some(v)
    ensures forall k' :: k' != k ==> Find([r[0]] + tail, k') == Find(r, k')
  {
    var put := [r[0]] + tail;
    assert put[0] == r[0] && put[1..] == tail;
  }

  /** The same step for the key list and its uniqueness. */
  lemma ConsPutKeys<V>(r: Assoc<V>, tail: Assoc<V>, k: string)
    requires r != [] && r[0].0 != k
    requires Keys(tail) == if k in Keys(r[1..]) then Keys(r[1..]) else Keys(r[1..]) + [k]
    requires UniqueKeys(r[1..]) ==> UniqueKeys(tail)
    ensures Keys([r[0]] + tail) == if k in Keys(r) then Keys(r) else Keys(r) + [k]
    ensures UniqueKeys(r) ==> UniqueKeys([r[0]] + tail)
  {
    var put := [r[0]] + tail;
    assert put[0] == r[0] && put[1..] == tail;
    var first, rest := r[0].0, Keys(r[1..]);
    assert Keys(r) == [first] + rest;
    assert Keys(put) == [first] + Keys(tail);
    if k in rest {
      assert k in Keys(r);
    } else {
      assert k !in Keys(r);
      assert [first] + (rest + [k]) == [first] + rest + [k];
    }
    if UniqueKeys(r) {
      assert first !in Keys(tail);
    }
  }

  /** The keys of `ks` other than `k`, in order. */
  function Without(ks: seq<string>, k: string): (out: seq<string>)
    ensures forall x :: x in out <==> x in ks && x != k
  {
    if ks == [] then []
    else if ks[0] == k then Without(ks[1..], k)
    else [ks[0]] + Without(ks[1..], k)
  }

  /** `delete obj[k]`: the other properties keep their order. */
  function Delete<V>(r: Assoc<V>, k: string): (r': Assoc<V>)
    ensures Find(r', k) == None
    ensures forall k' :: k' != k ==> Find(r', k') == Find(r, k')
    ensures Keys(r') == Without(Keys(r), k)
    ensures UniqueKeys(r) ==> UniqueKeys(r')
  {
    if r == [] then []
    else
      var tail := Delete(r[1..], k);
      if r[0].0 == k then tail
      else
        var r' := [r[0]] + tail;
        assert r'[0] == r[0] && r'[1..] == tail;
        r'
  }

  /** Two records with unique keys and the same lookups, over the same keys in the same
      order, are the same record. */
  lemma {:induction false} SameLookupsSameRecord<V>(a: Assoc<V>, b: Assoc<V>)
    requires UniqueKeys(a) && UniqueKeys(b)
    requires Keys(a) == Keys(b)
    requires forall k :: Find(a, k) == Find(b, k)
    ensures a == b
  {
    if a != [] {
      assert Keys(a)[0] == Keys(b)[0];
      assert Find(a, a[0].0) == Some(a[0].1);
      assert Find(b, a[0].0) == Some(b[0].1);
      assert Keys(a[1..]) == Keys(a)[1..] && Keys(b[1..]) == Keys(b)[1..];
      forall k ensures Find(a[1..], k) == Find(b[1..], k) {
        if k != a[0].0 {
          assert Find(a, k) == Find(a[1..], k);
          assert Find(b, k) == Find(b[1..], k);
        } else {
          FindIn(a[1..], k);
          FindIn(b[1..], k);
        }
      }
      SameLookupsSameRecord(a[1..], b[1..]);
    }
  }

  /** `delete` after `=` on the same property leaves the record as a plain `delete` would. */
  lemma {:induction false} DeletePut<V>(r: Assoc<V>, k: string, v: V)
    ensures Delete(Put(r, k, v), k) == Delete(r, k)
  {
    if r != [] && r[0].0 != k {
      DeletePut(r[1..], k, v);
      assert Put(r, k, v)[1..] == Put(r[1..], k, v);
    }
  }

  /** Writing one property and deleting another commute. */
  lemma {:induction false} PutDelete<V>(r: Assoc<V>, a: string, b: string, v: V)
    requires a != b
    ensures Put(Delete(r, a), b, v) == Delete(Put(r, b, v), a)
  {
    if r != [] {
      if r[0].0 == a {
        PutDelete(r[1..], a, b, v);
        assert Put(r, b, v) == [r[0]] + Put(r[1..], b, v);
      } else if r[0].0 == b {
        assert Delete(r, a) == [r[0]] + Delete(r[1..], a);
        assert Put(r, b, v) == [(b, v)] + r[1..];
      } else {
        PutDelete(r[1..], a, b, v);
        assert Delete(r, a) == [r[0]] + Delete(r[1..], a);
        assert Put(r, b, v) == [r[0]] + Put(r[1..], b, v);
        assert Put(Delete(r, a), b, v) == [r[0]] + Put(Delete(r[1..], a), b, v);
        assert Delete(Put(r, b, v), a) == [r[0]] + Delete(Put(r[1..], b, v), a);
      }
    }
  }

  /** A new property goes last. */
  lemma {:induction false} PutNew<V>(r: Assoc<V>, k: string, v: V)
    requires k !in Keys(r)
    ensures Put(r, k, v) == r + [(k, v)]
  {
    if r != [] {
      assert Keys(r)[0] == r[0].0;
      assert r[0].0 != k;
      assert Keys(r[1..]) == Keys(r)[1..];
      PutNew(r[1..], k, v);
      calc {
        Put(r, k, v);
        [r[0]] + Put(r[1..], k, v);
        [r[0]] + (r[1..] + [(k, v)]);
        { assert [r[0]] + r[1..] == r; }
        r + [(k, v)];
      }
    }
  }

  /** Unique keys, stated pairwise. */
  lemma {:induction false} UniqueKeysPairwise<V>(r: Assoc<V>)
    ensures UniqueKeys(r) <==> forall i, j :: 0 <= i < j < |r| ==> r[i].0 != r[j].0
  {
    if r != [] {
      UniqueKeysPairwise(r[1..]);
      assert Keys(r[1..]) == Keys(r)[1..];
      if UniqueKeys(r) {
        forall i, j | 0 <= i < j < |r| ensures r[i].0 != r[j].0 {
          if i == 0 {
            assert r[j].0 == Keys(r[1..])[j - 1];
          } else {
            assert r[i] == r[1..][i - 1] && r[j] == r[1..][j - 1];
          }
        }
      }
      if forall i, j :: 0 <= i < j < |r| ==> r[i].0 != r[j].0 {
        forall i, j | 0 <= i < j < |r[1..]| ensures r[1..][i].0 != r[1..][j].0 {
          assert r[1..][i] == r[i + 1] && r[1..][j] == r[j + 1];
        }
        assert r[0].0 !in Keys(r[1..]);
      }
    }
  }

  /** The value of the LAST entry named `k`: what a run of assignments leaves behind. */
  function FindLast<V>(r: Assoc<V>, k: string): (o: Option<V>)
    ensures o.None? <==> k !in Keys(r)
    ensures o.Some? ==> (k, o.value) in r
  {
    if r == [] then None
    else
      var init := r[..|r| - 1];
      assert Keys(r) == Keys(init) + [r[|r| - 1].0];
      if r[|r| - 1].0 == k then Some(r[|r| - 1].1) else FindLast(init, k)
  }

  /** `Object.assign(r, e)`: every entry of `e`, in order, assigned into `r`. */
  function PutAll<V>(r: Assoc<V>, e: Assoc<V>): Assoc<V>
    decreases |e|
  {
    if e == [] then r else Put(PutAll(r, e[..|e| - 1]), e[|e| - 1].0, e[|e| - 1].1)
  }

  /** After `Object.assign(r, e)` a property holds the last value `e` gives it, or its old value. */
  lemma {:induction false} PutAllFind<V>(r: Assoc<V>, e: Assoc<V>, k: string)
    ensures Find(PutAll(r, e), k) == if k in Keys(e) then FindLast(e, k) else Find(r, k)
  {
    if e != [] {
      var init := e[..|e| - 1];
      assert Keys(e) == Keys(init) + [e[|e| - 1].0];
      PutAllFind(r, init, k);
    }
  }

  /** `Object.assign` keeps the target's properties where they are and keys unique. */
  lemma {:induction false} PutAllShape<V>(r: Assoc<V>, e: Assoc<V>)
    ensures UniqueKeys(r) ==> UniqueKeys(PutAll(r, e))
    ensures |Keys(r)| <= |Keys(PutAll(r, e))| && Keys(PutAll(r, e))[..|Keys(r)|] == Keys(r)
  {
    if e != [] {
      var before := PutAll(r, e[..|e| - 1]);
      PutAllShape(r, e[..|e| - 1]);
      PutKeys(before, e[|e| - 1].0, e[|e| - 1].1);
      assert Keys(PutAll(r, e))[..|Keys(before)|] == Keys(before);
    }
  }

  /** Dropping the last entry of a record with unique keys leaves unique keys, none of them
      the dropped one. */
  lemma {:induction false} UniqueKeysInit<V>(r: Assoc<V>)
    requires UniqueKeys(r) && r != []
    ensures UniqueKeys(r[..|r| - 1]) && r[|r| - 1].0 !in Keys(r[..|r| - 1])
  {
    var n := |r| - 1;
    var init := r[..n];
    UniqueKeysPairwise(r);
    UniqueKeysPairwise(init);
    forall i, j | 0 <= i < j < |init| ensures init[i].0 != init[j].0 {
      assert init[i] == r[i] && init[j] == r[j];
    }
    forall i | 0 <= i < |init| ensures Keys(init)[i] != r[n].0 {
      assert init[i] == r[i];
    }
  }

  /** Copying a record with unique keys into an empty object gives the same record. */
  lemma {:induction false} PutAllIntoEmpty<V>(r: Assoc<V>)
    requires UniqueKeys(r)
    ensures PutAll([], r) == r
  {
    if r != [] {
      var n := |r| - 1;
      var init := r[..n];
      UniqueKeysInit(r);
      PutAllIntoEmpty(init);
      assert PutAll([], r) == Put(init, r[n].0, r[n].1);
      PutNew(init, r[n].0, r[n].1);
      assert init + [(r[n].0, r[n].1)] == r;
    }
  }

  /** A JavaScript object reference whose own properties the code updates in place. */
  class JsObject {
    var props: Record

    constructor (props: Record)
      ensures this.props == props
    {
      this.props := props;
    }
  }

  /** Sequence facts stated once for any element type, so that callers holding sequences of
      nested values need no extensionality reasoning of their own. */
  lemma TakeSucc<T>(s: seq<T>, i: nat)
    requires i < |s|
    ensures s[..i + 1] == s[..i] + [s[i]]
  {
  }

  lemma TakeAll<T>(s: seq<T>)
    ensures s[..|s|] == s
  {
  }

  lemma KeysSnoc<V>(r: Assoc<V>)
    requires r != []
    ensures Keys(r) == Keys(r[..|r| - 1]) + [r[|r| - 1].0]
  {
  }

  lemma SliceJoin<T>(s: seq<T>, j: nat, k: nat)
    requires j <= k <= |s|
    ensures s[..j] + s[j..k] == s[..k]
  {
  }

  lemma DropDrop<T>(s: seq<T>, i: nat, j: nat)
    requires i + j <= |s|
    ensures s[i..][j..] == s[i + j..]
    ensures s[i..][..j] == s[i..i + j]
  {
  }

  lemma ConcatEmpty<T>(a: seq<T>)
    ensures a + [] == a
  {
  }

  lemma ConcatAssoc<T>(a: seq<T>, b: seq<T>, c: seq<T>)
    ensures (a + b) + c == a + (b + c)
  {
  }

  lemma SnocTake<T>(a: seq<T>, x: T)
    ensures (a + [x])[..|a|] == a && (a + [x])[|a|] == x
  {
  }
}
