/** `lib/pluck.js`: copying the named properties of an object into a new object. */
module Pluck {
  import opened Js
  import opened Text

  /** `(props || '').split(/\s+/)`: `None` stands for a missing or `null` argument. */
  function Names(props: Option<string>): (names: seq<string>)
    ensures |names| >= 1 && forall i :: 0 <= i < |names| ==> NoSpace(names[i])
  {
    SplitSpace(props.GetOr(""))
  }

  /** The object the `forEach` over `names` fills: each name whose value in `obj` is not
      `undefined` is copied over. */
  function Plucked(names: seq<string>, obj: Record): Record
    decreases |names|
  {
    if names == [] then []
    else
      var before := Plucked(names[..|names| - 1], obj);
      var p := names[|names| - 1];
      if Get(obj, p) != Undefined then Put(before, p, Get(obj, p)) else before
  }

  /** The plucked object has exactly the listed names whose value is defined, each holding
      the very value `obj` holds, and no property twice. */
  lemma {:induction false} PluckedExactly(names: seq<string>, obj: Record, p: string)
    ensures Find(Plucked(names, obj), p) == if p in names && Get(obj, p) != Undefined then Some(Get(obj, p)) else None
    ensures UniqueKeys(Plucked(names, obj))
  {
    if names != [] {
      var init := names[..|names| - 1];
      assert names == init + [names[|names| - 1]];
      PluckedExactly(init, obj, p);
      PutKeys(Plucked(init, obj), names[|names| - 1], Get(obj, names[|names| - 1]));
    }
  }

  /** A missing or empty `props` plucks nothing (`''.split(/\s+/)` is `['']`, and no object
      property of `obj` is read except the empty-named one). */
  lemma EmptyProps(obj: Record)
    ensures Plucked(Names(None), obj) == Plucked(Names(Some("")), obj)
    ensures Get(obj, "") == Undefined ==> Plucked(Names(None), obj) == []
  {
    assert Names(None) == [""];
  }

  /** `pluck(props, obj)`: a fresh object; `obj` is only read. */
  method Pluck(props: Option<string>, obj: JsObject) returns (ret: JsObject)
    ensures fresh(ret)
    ensures ret.props == Plucked(Names(props), obj.props)
  {
    ret := new JsObject([]);
    var names := SplitSpace(props.GetOr(""));
    var i := 0;
    while i < |names|
      invariant 0 <= i <= |names|
      invariant ret.props == Plucked(names[..i], obj.props)
    {
      assert names[..i + 1][..i] == names[..i];
      var p := names[i];
      if Get(obj.props, p) != Undefined {
        ret.props := Put(ret.props, p, Get(obj.props, p));
      }
      i := i + 1;
    }
    assert names[..i] == names;
  }
}
