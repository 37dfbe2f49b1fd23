/** `lib/assign.js`: merging the properties of several objects into a target object, in
    place, either overwriting what the target holds or keeping its truthy values. */
module Assign {
  import opened Js

  /** An argument after `target`: an object, of which only the own properties are modelled
      (the source's `for...in` also visits inherited enumerable ones), or a boolean (a trailing
      one is the overwrite policy; `for...in` over any other finds nothing). */
  datatype Arg = Source(props: Record) | Flag(b: bool)

  /** One assignment of the inner loop: the entry is put when overwriting, or when the target's
      own value under its key is falsy (an inherited member is not looked up). */
  function Step(t: Record, entry: (string, JsValue), overwrite: bool): Record {
    if overwrite || !Truthy(Get(t, entry.0)) then Put(t, entry.0, entry.1) else t
  }

  /** The inner loop over the properties of one source, in order. */
  function MergeEntries(t: Record, entries: Record, overwrite: bool): Record
    decreases |entries|
  {
    if entries == [] then t
    else Step(MergeEntries(t, entries[..|entries| - 1], overwrite), entries[|entries| - 1], overwrite)
  }

  /** The outer loop over the sources, in order. */
  function MergeArgs(t: Record, args: seq<Arg>, overwrite: bool): Record
    decreases |args|
  {
    if args == [] then t
    else
      var before := MergeArgs(t, args[..|args| - 1], overwrite);
      match args[|args| - 1]
      case Source(props) => MergeEntries(before, props, overwrite)
      case Flag(_) => before
  }

  /** What `assign(target, ...args)` leaves in `target`: a trailing boolean is popped off as
      the policy, which is `true` when there is none. */
  function Assigned(t: Record, args: seq<Arg>): Record {
    if args != [] && args[|args| - 1].Flag? then MergeArgs(t, args[..|args| - 1], args[|args| - 1].b)
    else MergeArgs(t, args, true)
  }

  /** The last value any source gives `k`, if one does. */
  function LastValue(args: seq<Arg>, k: string): Option<JsValue>
    decreases |args|
  {
    if args == [] then None
    else match args[|args| - 1]
      case Source(props) => if k in Keys(props) then FindLast(props, k) else LastValue(args[..|args| - 1], k)
      case Flag(_) => LastValue(args[..|args| - 1], k)
  }

  /** Some source has property `k`. */
  predicate Mentions(args: seq<Arg>, k: string) {
    exists i :: 0 <= i < |args| && args[i].Source? && k in Keys(args[i].props)
  }

  lemma {:induction false} MergeEntriesIsPutAll(t: Record, entries: Record)
    ensures MergeEntries(t, entries, true) == PutAll(t, entries)
  {
    if entries != [] {
      MergeEntriesIsPutAll(t, entries[..|entries| - 1]);
    }
  }

  /** With overwrite on, each property ends with the value of the last source that has it;
      a property no source has keeps the target's value. */
  lemma {:induction false} OverwriteLastWins(t: Record, args: seq<Arg>, k: string)
    ensures Find(MergeArgs(t, args, true), k) == match LastValue(args, k)
      case Some(v) => Some(v)
      case None => Find(t, k)
  {
    if args != [] {
      var init := args[..|args| - 1];
      OverwriteLastWins(t, init, k);
      match args[|args| - 1]
      case Source(props) =>
        MergeEntriesIsPutAll(MergeArgs(t, init, true), props);
        PutAllFind(MergeArgs(t, init, true), props, k);
      case Flag(_) =>
    }
  }

  lemma {:induction false} PreserveEntries(t: Record, entries: Record, k: string)
    requires Truthy(Get(t, k))
    ensures Find(MergeEntries(t, entries, false), k) == Find(t, k)
  {
    if entries != [] {
      PreserveEntries(t, entries[..|entries| - 1], k);
    }
  }

  /** With overwrite off, a property the target holds a truthy value for is never touched. */
  lemma {:induction false} PreserveTruthy(t: Record, args: seq<Arg>, k: string)
    requires Truthy(Get(t, k))
    ensures Find(MergeArgs(t, args, false), k) == Find(t, k)
  {
    if args != [] {
      var init := args[..|args| - 1];
      PreserveTruthy(t, init, k);
      match args[|args| - 1]
      case Source(props) => PreserveEntries(MergeArgs(t, init, false), props, k);
      case Flag(_) =>
    }
  }

  lemma {:induction false} UntouchedEntries(t: Record, entries: Record, overwrite: bool, k: string)
    requires k !in Keys(entries)
    ensures Find(MergeEntries(t, entries, overwrite), k) == Find(t, k)
  {
    if entries != [] {
      var init := entries[..|entries| - 1];
      KeysSnoc(entries);
      UntouchedEntries(t, init, overwrite, k);
    }
  }

  /** Under either policy, a property that no source has is left as it was. */
  lemma {:induction false} Untouched(t: Record, args: seq<Arg>, overwrite: bool, k: string)
    requires !Mentions(args, k)
    ensures Find(MergeArgs(t, args, overwrite), k) == Find(t, k)
  {
    if args != [] {
      var init := args[..|args| - 1];
      assert !Mentions(init, k) by {
        forall i | 0 <= i < |init| ensures !(init[i].Source? && k in Keys(init[i].props)) {
          assert init[i] == args[i];
        }
      }
      Untouched(t, init, overwrite, k);
      match args[|args| - 1]
      case Source(props) =>
        assert k !in Keys(props) by {
          assert args[|args| - 1].Source?;
        }
        UntouchedEntries(MergeArgs(t, init, overwrite), props, overwrite, k);
      case Flag(_) =>
    }
  }

  lemma PrefixOfPrefix(a: seq<string>, b: seq<string>, c: seq<string>)
    requires |a| <= |b| && b[..|a|] == a
    requires |b| <= |c| && c[..|b|] == b
    ensures |a| <= |c| && c[..|a|] == a
  {
    assert c[..|a|] == c[..|b|][..|a|];
  }

  lemma {:induction false} EntriesShape(t: Record, entries: Record, overwrite: bool)
    ensures UniqueKeys(t) ==> UniqueKeys(MergeEntries(t, entries, overwrite))
    ensures var r := MergeEntries(t, entries, overwrite); |Keys(t)| <= |Keys(r)| && Keys(r)[..|Keys(t)|] == Keys(t)
  {
    if entries != [] {
      var before := MergeEntries(t, entries[..|entries| - 1], overwrite);
      var entry := entries[|entries| - 1];
      EntriesShape(t, entries[..|entries| - 1], overwrite);
      var after := Step(before, entry, overwrite);
      assert after == MergeEntries(t, entries, overwrite);
      if after != before {
        PutKeys(before, entry.0, entry.1);
        PrefixOfPrefix(Keys(t), Keys(before), Keys(after));
      }
    }
  }

  /** The target keeps its own properties first, in their order, and never gains a
      duplicate: new properties are added after them. */
  lemma {:induction false} TargetOrderKept(t: Record, args: seq<Arg>, overwrite: bool)
    ensures UniqueKeys(t) ==> UniqueKeys(MergeArgs(t, args, overwrite))
    ensures var r := MergeArgs(t, args, overwrite); |Keys(t)| <= |Keys(r)| && Keys(r)[..|Keys(t)|] == Keys(t)
  {
    if args != [] {
      var init := args[..|args| - 1];
      TargetOrderKept(t, init, overwrite);
      var before := MergeArgs(t, init, overwrite);
      match args[|args| - 1]
      case Source(props) =>
        EntriesShape(before, props, overwrite);
        var r := MergeEntries(before, props, overwrite);
        assert Keys(r)[..|Keys(t)|] == Keys(r)[..|Keys(before)|][..|Keys(t)|];
      case Flag(_) =>
    }
  }

  /** `assign(target, ...args)`: the same object comes back, its properties merged in place. */
  method Assign(target: JsObject, args: seq<Arg>) returns (r: JsObject)
    modifies target
    ensures r == target
    ensures target.props == Assigned(old(target.props), args)
  {
    var overwrite := true;
    var sources := args;
    if |sources| > 0 && sources[|sources| - 1].Flag? {
      overwrite := sources[|sources| - 1].b;
      sources := sources[..|sources| - 1];
    }
    ghost var t0 := target.props;
    var j := 0;
    while j < |sources|
      invariant 0 <= j <= |sources|
      invariant target.props == MergeArgs(t0, sources[..j], overwrite)
    {
      TakeSucc(sources, j);
      SnocTake(sources[..j], sources[j]);
      if sources[j].Source? {
        var props := sources[j].props;
        ghost var before := target.props;
        var i := 0;
        while i < |props|
          invariant 0 <= i <= |props|
          invariant target.props == MergeEntries(before, props[..i], overwrite)
        {
          TakeSucc(props, i);
          SnocTake(props[..i], props[i]);
          var (name, value) := props[i];
          if overwrite || !Truthy(Get(target.props, name)) {
            target.props := Put(target.props, name, value);
          }
          assert target.props == Step(MergeEntries(before, props[..i], overwrite), props[i], overwrite);
          i := i + 1;
        }
        TakeAll(props);
        assert target.props == MergeEntries(MergeArgs(t0, sources[..j], overwrite), sources[j].props, overwrite);
      }
      j := j + 1;
    }
    TakeAll(sources);
    r := target;
  }
}
