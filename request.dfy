/** `lib/request.js`: the mock incoming request, a readable byte source carrying the request
    line, a header map kept in step with an ordered raw header list, and a body that is
    handed out in chunks. */
module MockRequest {
  import opened Js
  import opened Text

  // ---------------------------------------------------------------- raw header lists

  /** Header name/value pairs in the order they were set; `Flat` gives the source's
      `rawHeaders` array itself. */
  type Pairs = seq<(string, JsValue)>

  /** The flat array `[name, value, name, value, ...]`: always of even length, with the
      names in the even slots. */
  function Flat(pairs: Pairs): (raw: seq<JsValue>)
    ensures |raw| == 2 * |pairs|
  {
    if pairs == [] then [] else [Text(pairs[0].0), pairs[0].1] + Flat(pairs[1..])
  }

  lemma {:induction false} FlatConcat(a: Pairs, b: Pairs)
    ensures Flat(a + b) == Flat(a) + Flat(b)
  {
    if a != [] {
      assert (a + b)[1..] == a[1..] + b;
      FlatConcat(a[1..], b);
    } else {
      assert a + b == b;
    }
  }

  /** A flat array of even length with a string in every name slot. */
  predicate RawNames(raw: seq<JsValue>) {
    |raw| % 2 == 0 && forall i :: 0 <= i < |raw| && i % 2 == 0 ==> raw[i].Text?
  }

  /** The pairs of a flat array, read two entries at a time. */
  function PairsOf(raw: seq<JsValue>): (pairs: Pairs)
    requires RawNames(raw)
    ensures Flat(pairs) == raw
    decreases |raw|
  {
    if raw == [] then []
    else
      assert RawNames(raw[2..]) by {
        forall i | 0 <= i < |raw[2..]| && i % 2 == 0 ensures raw[2..][i].Text? {
          assert raw[2..][i] == raw[i + 2];
        }
      }
      var pairs := [(raw[0].s, raw[1])] + PairsOf(raw[2..]);
      assert pairs[1..] == PairsOf(raw[2..]);
      pairs
  }

  /** The header map `setHeader` builds from the pairs, one at a time. */
  function HeadersOf(pairs: Pairs): Record
    decreases |pairs|
  {
    if pairs == [] then []
    else
      var n := |pairs| - 1;
      Put(HeadersOf(pairs[..n]), Lower(pairs[n].0), pairs[n].1)
  }

  /** The value of the last pair whose name, lower-cased, is `key`. */
  function LastRaw(pairs: Pairs, key: string): Option<JsValue>
    decreases |pairs|
  {
    if pairs == [] then None
    else
      var n := |pairs| - 1;
      if Lower(pairs[n].0) == key then Some(pairs[n].1) else LastRaw(pairs[..n], key)
  }

  /** The header map answers every lookup with the last pair of that name, whatever its
      casing; its keys are lower case and unique. */
  lemma {:induction false} HeadersOfFind(pairs: Pairs, key: string)
    ensures Find(HeadersOf(pairs), key) == LastRaw(pairs, key)
    ensures UniqueKeys(HeadersOf(pairs))
    ensures forall k :: k in Keys(HeadersOf(pairs)) ==> IsLower(k)
  {
    if pairs != [] {
      var n := |pairs| - 1;
      HeadersOfFind(pairs[..n], key);
      LowerIsLower(pairs[n].0);
      PutKeys(HeadersOf(pairs[..n]), Lower(pairs[n].0), pairs[n].1);
    }
  }

  /** `removeHeader`'s rebuilt list: every pair whose name matches `key` when lower-cased
      is left out. */
  function DropRaw(pairs: Pairs, key: string): Pairs
    decreases |pairs|
  {
    if pairs == [] then []
    else
      var n := |pairs| - 1;
      DropRaw(pairs[..n], key) + (if Lower(pairs[n].0) == key then [] else [pairs[n]])
  }

  /** Dropping pairs is a filter that keeps the order of what it keeps: the list can be cut
      anywhere and each part filtered on its own. */
  lemma {:induction false} DropRawConcat(a: Pairs, b: Pairs, key: string)
    ensures DropRaw(a + b, key) == DropRaw(a, key) + DropRaw(b, key)
  {
    if b != [] {
      var n := |b| - 1;
      DropRawConcat(a, b[..n], key);
      assert (a + b)[..|a| + n] == a + b[..n];
      assert (a + b)[|a| + n] == b[n];
    } else {
      assert a + b == a;
    }
  }

  /** No pair that matches `key` survives, and a list with no matching pair comes back as
      it was. */
  lemma {:induction false} DropRawExact(pairs: Pairs, key: string)
    ensures LastRaw(DropRaw(pairs, key), key) == None
    ensures LastRaw(pairs, key) == None ==> DropRaw(pairs, key) == pairs
    decreases |pairs|
  {
    if pairs != [] {
      var n := |pairs| - 1;
      var before := DropRaw(pairs[..n], key);
      DropRawExact(pairs[..n], key);
      if Lower(pairs[n].0) != key {
        assert DropRaw(pairs, key) == before + [pairs[n]];
        SnocTake(before, pairs[n]);
        assert LastRaw(before + [pairs[n]], key) == LastRaw(before, key);
        TakeSucc(pairs, n);
        TakeAll(pairs);
      } else {
        assert DropRaw(pairs, key) == before + [];
        ConcatEmpty(before);
      }
    }
  }

  /** Every pair that does not match `key` survives, in the list's own order, and only those. */
  lemma {:induction false} DropRawMembers(pairs: Pairs, key: string)
    ensures forall p :: p in DropRaw(pairs, key) <==> p in pairs && Lower(p.0) != key
    decreases |pairs|
  {
    if pairs != [] {
      var n := |pairs| - 1;
      DropRawMembers(pairs[..n], key);
      TakeSucc(pairs, n);
      TakeAll(pairs);
    }
  }

  /** Dropping the pairs of a name is deleting its entry from the header map: the two
      representations stay in step. */
  lemma {:induction false} DropRawHeaders(pairs: Pairs, key: string)
    ensures HeadersOf(DropRaw(pairs, key)) == Delete(HeadersOf(pairs), key)
  {
    if pairs != [] {
      var n := |pairs| - 1;
      var init := pairs[..n];
      DropRawHeaders(init, key);
      var name := Lower(pairs[n].0);
      var before := DropRaw(init, key);
      if name == key {
        assert DropRaw(pairs, key) == before;
        DeletePut(HeadersOf(init), key, pairs[n].1);
      } else {
        var out := before + [pairs[n]];
        assert DropRaw(pairs, key) == out;
        assert out[..|before|] == before;
        PutDelete(HeadersOf(init), key, name, pairs[n].1);
      }
    }
  }

  // ---------------------------------------------------------------- the protocol version

  /** The `httpVersion` setter's parse, `value.split('.').map(v => parseInt(v, 10))`, when it
      yields the two parts it uses. */
  function ParseVersion(value: string): (r: Option<(IntOrNaN, IntOrNaN)>)
    ensures r.Some? <==> Count(value, '.') == 1
  {
    var parts := SplitOn(value, '.');
    if |parts| == 2 then Some((ParseInt(parts[0]), ParseInt(parts[1]))) else None
  }

  /** The version numbers after the setter assigns `value` to a message whose numbers were
      `major` and `minor`: the parsed pair when there is one, the old numbers otherwise. */
  function VersionNumbers(value: string, major: IntOrNaN, minor: IntOrNaN): (numbers: (IntOrNaN, IntOrNaN))
    ensures Count(value, '.') != 1 ==> numbers == (major, minor)
  {
    match ParseVersion(value)
    case Some(parsed) => parsed
    case None => (major, minor)
  }

  /** A version written `<major>.<minor>` is read back as those two numbers. */
  lemma ParseVersionDecimal(major: nat, minor: nat)
    ensures ParseVersion(Decimal(major) + "." + Decimal(minor)) == Some((Int(major), Int(minor)))
  {
    var a, b := Decimal(major), Decimal(minor);
    assert '.' !in a by {
      forall i | 0 <= i < |a| ensures a[i] != '.' { assert IsDigit(a[i]); }
    }
    assert '.' !in b by {
      forall i | 0 <= i < |b| ensures b[i] != '.' { assert IsDigit(b[i]); }
    }
    var parts := [a, b];
    assert Join(parts, '.') == a + "." + b;
    SplitOnJoin(parts, '.');
    ParseIntDecimal(major);
    ParseIntDecimal(minor);
  }

  // ---------------------------------------------------------------- reading the body

  /** What the pull loop hands the stream: a chunk, the `close` event, or `push(null)`. */
  datatype ReadEvent = Chunk(bytes: seq<byte>) | Close | EndOfData

  /** Whether the consumer accepts the `k`-th push of one `_read` call (`push` returning true);
      pushes beyond the oracle are accepted. */
  predicate Accepts(accepts: seq<bool>, k: nat) {
    k >= |accepts| || accepts[k]
  }

  /** The outcome of a `_read` call: what was pushed, and the new pending buffer, emitted
      byte count and number of chunk pushes. */
  datatype Pulled = Pulled(events: seq<ReadEvent>, buffer: seq<byte>, count: int, pushes: nat)

  /** What is left of a `_read` once `events` were already pushed. */
  function After(events: seq<ReadEvent>, r: Pulled): (whole: Pulled)
    ensures whole.events == events + r.events
    ensures whole.buffer == r.buffer && whole.count == r.count && whole.pushes == r.pushes
  {
    r.(events := events + r.events)
  }

  /** One turn's cut of a non-empty buffer: the chunk length `n`, what stays buffered, and
      the events pushed. */
  datatype Turn = Turn(n: nat, rest: seq<byte>, events: seq<ReadEvent>)

  /** A turn of the `_read(size)` loop: cut a chunk of at most `size` bytes, count it, and on
      reaching the close threshold drop the rest of the buffer and signal `close` before the
      chunk is pushed. */
  function Cut(buffer: seq<byte>, count: int, emitClose: int, size: nat): (t: Turn)
    requires size > 0 && buffer != []
    ensures 0 < t.n <= size && t.n <= |buffer| && |t.rest| < |buffer|
  {
    var n := if size > |buffer| then |buffer| else size;
    var closing := emitClose != 0 && emitClose <= count + n;
    Turn(n, if closing then [] else buffer[n..], (if closing then [Close] else []) + [Chunk(buffer[..n])])
  }

  /** The `_read(size)` loop: turn after turn (each asking for no more than the previous
      chunk), stopping after a push that is declined; an empty buffer ends the stream. */
  function Pull(buffer: seq<byte>, count: int, emitClose: int, size: nat, accepts: seq<bool>, pushes: nat): Pulled
    requires size > 0
    decreases |buffer|
  {
    if buffer == [] then Pulled([EndOfData], [], count, pushes)
    else
      var t := Cut(buffer, count, emitClose, size);
      if !Accepts(accepts, pushes) then Pulled(t.events, t.rest, count + t.n, pushes + 1)
      else After(t.events, Pull(t.rest, count + t.n, emitClose, t.n, accepts, pushes + 1))
  }

  lemma AfterAfter(a: seq<ReadEvent>, b: seq<ReadEvent>, r: Pulled)
    ensures After(a, After(b, r)) == After(a + b, r)
  {
    assert a + (b + r.events) == a + b + r.events;
  }

  /** The bytes of the chunks among `events`, in order. */
  function Delivered(events: seq<ReadEvent>): seq<byte> {
    if events == [] then []
    else (if events[0].Chunk? then events[0].bytes else []) + Delivered(events[1..])
  }

  lemma {:induction false} DeliveredConcat(a: seq<ReadEvent>, b: seq<ReadEvent>)
    ensures Delivered(a + b) == Delivered(a) + Delivered(b)
  {
    if a != [] {
      assert (a + b)[1..] == a[1..] + b;
      DeliveredConcat(a[1..], b);
    } else {
      assert a + b == b;
    }
  }

  lemma DeliveredCons(e: ReadEvent, rest: seq<ReadEvent>)
    ensures Delivered([e] + rest) == (if e.Chunk? then e.bytes else []) + Delivered(rest)
  {
    assert ([e] + rest)[1..] == rest;
  }

  /** One turn of the `_read` loop on a non-empty buffer: the chunk length `n`, whether the
      threshold is reached, what stays buffered and what is pushed. */
  lemma PullStep(buffer: seq<byte>, count: int, emitClose: int, size: nat, accepts: seq<bool>, pushes: nat)
    returns (n: nat, closing: bool, rest: seq<byte>, events: seq<ReadEvent>)
    requires size > 0 && buffer != []
    ensures n == (if size > |buffer| then |buffer| else size) && 0 < n <= size
    ensures closing == (emitClose != 0 && emitClose <= count + n)
    ensures rest == if closing then [] else buffer[n..]
    ensures events == (if closing then [Close] else []) + [Chunk(buffer[..n])]
    ensures Accepts(accepts, pushes) ==>
      Pull(buffer, count, emitClose, size, accepts, pushes) == After(events, Pull(rest, count + n, emitClose, n, accepts, pushes + 1))
    ensures !Accepts(accepts, pushes) ==>
      Pull(buffer, count, emitClose, size, accepts, pushes) == Pulled(events, rest, count + n, pushes + 1)
  {
    var t := Cut(buffer, count, emitClose, size);
    n, rest, events := t.n, t.rest, t.events;
    closing := emitClose != 0 && emitClose <= count + n;
  }

  /** What one turn pushes: the chunk's bytes and nothing else, `close` exactly when the
      threshold is reached, and the chunk last. */
  lemma TurnEvents(buffer: seq<byte>, n: nat, closing: bool, events: seq<ReadEvent>)
    requires n <= |buffer| && events == (if closing then [Close] else []) + [Chunk(buffer[..n])]
    ensures Delivered(events) == buffer[..n]
    ensures Close in events <==> closing
    ensures events[|events| - 1] == Chunk(buffer[..n])
  {
    assert Delivered([Chunk(buffer[..n])]) == buffer[..n];
    DeliveredConcat([Close], [Chunk(buffer[..n])]);
  }

  /** Every chunk among `events` is non-empty and at most `size` bytes long. */
  predicate ChunksWithin(events: seq<ReadEvent>, size: nat) {
    forall i :: 0 <= i < |events| && events[i].Chunk? ==> 0 < |events[i].bytes| <= size
  }

  /** The end of the stream, if signalled, is the last event. */
  predicate EndOnlyLast(events: seq<ReadEvent>) {
    forall i :: 0 <= i < |events| - 1 ==> !events[i].EndOfData?
  }

  /** The events of one turn, and the end of the stream, have both shapes. */
  lemma TurnShape(closing: bool, chunk: seq<byte>, size: nat)
    requires 0 < |chunk| <= size
    ensures var events := (if closing then [Close] else []) + [Chunk(chunk)];
      ChunksWithin(events, size) && EndOnlyLast(events) && EndOfData !in events
    ensures ChunksWithin([EndOfData], size) && EndOnlyLast([EndOfData])
  {
    var events := (if closing then [Close] else []) + [Chunk(chunk)];
    assert events == if closing then [Close, Chunk(chunk)] else [Chunk(chunk)];
  }

  /** The two shapes above survive putting one turn's events in front. */
  lemma ShapeConcat(a: seq<ReadEvent>, b: seq<ReadEvent>, small: nat, size: nat)
    requires small <= size && EndOfData !in a
    requires ChunksWithin(a, size) && ChunksWithin(b, small) && EndOnlyLast(b)
    ensures ChunksWithin(a + b, size) && EndOnlyLast(a + b)
  {
    var all := a + b;
    forall i | 0 <= i < |all| && all[i].Chunk? ensures 0 < |all[i].bytes| <= size {
      if i >= |a| { assert all[i] == b[i - |a|]; }
    }
    forall i | 0 <= i < |all| - 1 ensures !all[i].EndOfData? {
      if i >= |a| { assert all[i] == b[i - |a|]; } else { assert all[i] == a[i]; }
    }
  }

  /** Every event of one `_read` is a non-empty chunk of at most `size` bytes, except a
      `close`, or the end of the stream as the very last event. */
  lemma {:induction false} PullChunks(buffer: seq<byte>, count: int, emitClose: int, size: nat, accepts: seq<bool>, pushes: nat, r: Pulled)
    requires size > 0 && r == Pull(buffer, count, emitClose, size, accepts, pushes)
    ensures r.events != []
    ensures ChunksWithin(r.events, size)
    ensures EndOnlyLast(r.events)
    decreases |buffer|
  {
    if buffer == [] {
      TurnShape(false, [0], size);
      assert r.events == [EndOfData];
    } else {
      var n, closing, rest, events := PullStep(buffer, count, emitClose, size, accepts, pushes);
      TurnEvents(buffer, n, closing, events);
      TurnShape(closing, buffer[..n], size);
      if Accepts(accepts, pushes) {
        var next := Pull(rest, count + n, emitClose, n, accepts, pushes + 1);
        assert r.events == events + next.events;
        PullChunks(rest, count + n, emitClose, n, accepts, pushes + 1, next);
        ShapeConcat(events, next.events, n, size);
      } else {
        assert r.events == events;
      }
    }
  }

  /** The emitted-byte counter of one `_read` grows by exactly the bytes it delivers. */
  lemma {:induction false} PullCount(buffer: seq<byte>, count: int, emitClose: int, size: nat, accepts: seq<bool>, pushes: nat, r: Pulled)
    requires size > 0 && r == Pull(buffer, count, emitClose, size, accepts, pushes)
    ensures r.count == count + |Delivered(r.events)|
    decreases |buffer|
  {
    if buffer == [] {
      assert r == Pulled([EndOfData], [], count, pushes);
    } else {
      var n, closing, rest, events := PullStep(buffer, count, emitClose, size, accepts, pushes);
      TurnEvents(buffer, n, closing, events);
      if Accepts(accepts, pushes) {
        var next := Pull(rest, count + n, emitClose, n, accepts, pushes + 1);
        assert r.events == events + next.events && r.count == next.count;
        PullCount(rest, count + n, emitClose, n, accepts, pushes + 1, next);
        DeliveredConcat(events, next.events);
      } else {
        assert r.events == events && r.count == count + n;
      }
    }
  }

  /** The bytes a `_read` result `r` delivered, followed by what it left buffered, are a
      prefix of `buffer`, and all of it when no `close` was signalled. */
  predicate Prefixed(r: Pulled, buffer: seq<byte>) {
    && Delivered(r.events) + r.buffer <= buffer
    && (Close !in r.events ==> Delivered(r.events) + r.buffer == buffer)
  }

  /** One `_read` delivers the buffer in order: what it pushed and what it left are a prefix
      of the buffer, and the whole buffer when no `close` was signalled. */
  lemma {:induction false} PullBytes(buffer: seq<byte>, count: int, emitClose: int, size: nat, accepts: seq<bool>, pushes: nat, r: Pulled)
    requires size > 0 && r == Pull(buffer, count, emitClose, size, accepts, pushes)
    ensures Prefixed(r, buffer)
    decreases |buffer|
  {
    if buffer == [] {
      assert Delivered([EndOfData]) == [];
    } else {
      var n, closing, rest, events := PullStep(buffer, count, emitClose, size, accepts, pushes);
      TurnEvents(buffer, n, closing, events);
      if Accepts(accepts, pushes) {
        var next := Pull(rest, count + n, emitClose, n, accepts, pushes + 1);
        PullBytes(rest, count + n, emitClose, n, accepts, pushes + 1, next);
        PrefixedAfter(buffer, n, closing, rest, events, next);
      } else {
        PrefixJoin(buffer, n, rest, rest, closing);
      }
    }
  }

  /** A turn in front of a result that is a prefix of what the turn left is a prefix of the
      whole buffer. */
  lemma PrefixedAfter(buffer: seq<byte>, n: nat, closing: bool, rest: seq<byte>, events: seq<ReadEvent>, next: Pulled)
    requires n <= |buffer|
    requires rest == if closing then [] else buffer[n..]
    requires Delivered(events) == buffer[..n] && (Close in events <==> closing)
    requires Prefixed(next, rest)
    ensures Prefixed(After(events, next), buffer)
  {
    var r := After(events, next);
    var d := Delivered(next.events);
    DeliveredConcat(events, next.events);
    ConcatAssoc(buffer[..n], d, next.buffer);
    PrefixJoin(buffer, n, rest, d + next.buffer, closing);
  }

  /** The bookkeeping step of `PullBytes`: a chunk cut from the front, followed by a prefix of
      what comes after it, is a prefix of the whole, and the whole when nothing was dropped. */
  lemma PrefixJoin(buffer: seq<byte>, n: nat, rest: seq<byte>, tail: seq<byte>, closing: bool)
    requires n <= |buffer|
    requires rest == if closing then [] else buffer[n..]
    requires tail <= rest
    ensures buffer[..n] + tail <= buffer
    ensures !closing && tail == rest ==> buffer[..n] + tail == buffer
  {
    if !closing {
      assert buffer == buffer[..n] + rest;
    }
  }

  /** Every push of a `_read` from the `from`-th up to (not including) the `to`-th was taken. */
  predicate AllAccepted(accepts: seq<bool>, from: nat, to: nat) {
    forall k :: from <= k < to ==> Accepts(accepts, k)
  }

  /** The last event of a non-empty list. */
  function Last(events: seq<ReadEvent>): ReadEvent
    requires events != []
  {
    events[|events| - 1]
  }

  /** How a `_read` result `r` that started at push number `pushes` stopped: it ended the
      stream with nothing left buffered and every push taken, or its last event is a chunk
      whose push was declined. */
  predicate Stopped(r: Pulled, accepts: seq<bool>, pushes: nat) {
    && r.events != [] && pushes <= r.pushes
    && (Last(r.events).EndOfData? ==> r.buffer == [] && AllAccepted(accepts, pushes, r.pushes))
    && (!Last(r.events).EndOfData? ==> Last(r.events).Chunk? && pushes < r.pushes && !Accepts(accepts, r.pushes - 1))
  }

  /** The first turn of a `_read` on a non-empty buffer, as far as how it stops goes: its
      pushes end with a chunk, and the rest of the call follows only if that chunk was taken. */
  lemma PullShape(buffer: seq<byte>, count: int, emitClose: int, size: nat, accepts: seq<bool>, pushes: nat)
    returns (n: nat, rest: seq<byte>, events: seq<ReadEvent>)
    requires size > 0 && buffer != []
    ensures n > 0 && |rest| < |buffer| && events != [] && Last(events).Chunk?
    ensures Accepts(accepts, pushes) ==>
      Pull(buffer, count, emitClose, size, accepts, pushes) == After(events, Pull(rest, count + n, emitClose, n, accepts, pushes + 1))
    ensures !Accepts(accepts, pushes) ==>
      Pull(buffer, count, emitClose, size, accepts, pushes) == Pulled(events, rest, count + n, pushes + 1)
  {
    var closing;
    n, closing, rest, events := PullStep(buffer, count, emitClose, size, accepts, pushes);
    TurnEvents(buffer, n, closing, events);
  }

  /** Every `_read` stops in one of the two ways `Stopped` names. */
  lemma {:induction false} PullStops(buffer: seq<byte>, count: int, emitClose: int, size: nat, accepts: seq<bool>, pushes: nat, r: Pulled)
    requires size > 0 && r == Pull(buffer, count, emitClose, size, accepts, pushes)
    ensures Stopped(r, accepts, pushes)
    decreases |buffer|, 1
  {
    if buffer == [] {
      StoppedAtEnd(count, accepts, pushes);
    } else if Accepts(accepts, pushes) {
      PullStopsTaken(buffer, count, emitClose, size, accepts, pushes, r);
    } else {
      var n, rest, events := PullShape(buffer, count, emitClose, size, accepts, pushes);
      StoppedDeclined(events, rest, count + n, accepts, pushes);
    }
  }

  /** The case of `PullStops` where the first push is taken: the rest of the call stops, and
      so does the whole. */
  lemma {:induction false} PullStopsTaken(buffer: seq<byte>, count: int, emitClose: int, size: nat, accepts: seq<bool>, pushes: nat, r: Pulled)
    requires size > 0 && buffer != [] && Accepts(accepts, pushes)
    requires r == Pull(buffer, count, emitClose, size, accepts, pushes)
    ensures Stopped(r, accepts, pushes)
    decreases |buffer|, 0
  {
    var n, rest, events := PullShape(buffer, count, emitClose, size, accepts, pushes);
    var next := Pull(rest, count + n, emitClose, n, accepts, pushes + 1);
    PullStops(rest, count + n, emitClose, n, accepts, pushes + 1, next);
    StoppedAfter(events, next, accepts, pushes);
  }

  lemma StoppedAtEnd(count: int, accepts: seq<bool>, pushes: nat)
    ensures Stopped(Pulled([EndOfData], [], count, pushes), accepts, pushes)
  {
  }

  lemma StoppedDeclined(events: seq<ReadEvent>, rest: seq<byte>, count: int, accepts: seq<bool>, pushes: nat)
    requires events != [] && Last(events).Chunk? && !Accepts(accepts, pushes)
    ensures Stopped(Pulled(events, rest, count, pushes + 1), accepts, pushes)
  {
  }

  /** A turn whose push was taken, in front of a stopped rest, stops the same way. */
  lemma StoppedAfter(events: seq<ReadEvent>, next: Pulled, accepts: seq<bool>, pushes: nat)
    requires Accepts(accepts, pushes) && Stopped(next, accepts, pushes + 1)
    ensures Stopped(After(events, next), accepts, pushes)
  {
    var r := After(events, next);
    LastConcat(events, next.events);
    AcceptedFrom(accepts, pushes, r.pushes);
  }

  lemma LastConcat(a: seq<ReadEvent>, b: seq<ReadEvent>)
    requires b != []
    ensures Last(a + b) == Last(b)
  {
  }

  lemma AcceptedFrom(accepts: seq<bool>, from: nat, to: nat)
    requires Accepts(accepts, from) && from < to
    ensures AllAccepted(accepts, from, to) <==> AllAccepted(accepts, from + 1, to)
  {
  }

  /** One `_read` ends the stream exactly when none of its pushes was declined. */
  lemma PullEnding(buffer: seq<byte>, count: int, emitClose: int, size: nat, accepts: seq<bool>, pushes: nat, r: Pulled)
    requires size > 0 && r == Pull(buffer, count, emitClose, size, accepts, pushes)
    ensures r.events != []
    ensures Last(r.events).EndOfData? <==> AllAccepted(accepts, pushes, r.pushes)
  {
    PullStops(buffer, count, emitClose, size, accepts, pushes, r);
    if !Last(r.events).EndOfData? {
      assert !AllAccepted(accepts, pushes, r.pushes);
    }
  }

  /** The turn whose chunk reaches the `close` threshold: `close` goes out before the chunk,
      the chunk is still delivered whole, whatever is left in the buffer is dropped, and the
      stream ends with the next turn. */
  lemma CloseAtThreshold(buffer: seq<byte>, count: int, emitClose: int, size: nat, accepts: seq<bool>, pushes: nat, n: nat)
    requires size > 0 && buffer != [] && n == (if size > |buffer| then |buffer| else size)
    requires emitClose != 0 && emitClose <= count + n && Accepts(accepts, pushes)
    ensures Pull(buffer, count, emitClose, size, accepts, pushes)
      == Pulled([Close, Chunk(buffer[..n]), EndOfData], [], count + n, pushes + 1)
  {
    var m, closing, rest, events := PullStep(buffer, count, emitClose, size, accepts, pushes);
    TurnEvents(buffer, m, closing, events);
    assert events == [Close, Chunk(buffer[..n])] && rest == [];
    assert Pull(rest, count + n, emitClose, n, accepts, pushes + 1).events == [EndOfData];
  }

  /** A turn that takes a full `size`-byte chunk below the close threshold, when the
      consumer accepts it. */
  lemma FullTurn(buffer: seq<byte>, count: int, emitClose: int, size: nat, accepts: seq<bool>, pushes: nat)
    requires 0 < size < |buffer| && Accepts(accepts, pushes)
    requires !(emitClose != 0 && emitClose <= count + size)
    ensures Pull(buffer, count, emitClose, size, accepts, pushes)
      == After([Chunk(buffer[..size])], Pull(buffer[size..], count + size, emitClose, size, accepts, pushes + 1))
  {
    var n, closing, rest, events := PullStep(buffer, count, emitClose, size, accepts, pushes);
  }

  /** A 25-byte body read in chunks of 5 with the close threshold at 12: the third chunk
      reaches the threshold, so `close` goes out before it, the rest of the body is dropped
      and the stream ends. */
  lemma CloseExample(body: seq<byte>)
    requires |body| == 25
    ensures Pull(body, 0, 12, 5, [], 0)
      == Pulled([Chunk(body[..5]), Chunk(body[5..10]), Close, Chunk(body[10..15]), EndOfData], [], 15, 3)
  {
    var rest1, rest2 := body[5..], body[10..];
    DropDrop(body, 5, 5);
    DropDrop(body, 10, 5);
    FullTurn(body, 0, 12, 5, [], 0);
    FullTurn(rest1, 5, 12, 5, [], 1);
    CloseAtThreshold(rest2, 10, 12, 5, [], 2, 5);
    var a, b, c := Chunk(body[..5]), Chunk(body[5..10]), Chunk(body[10..15]);
    var third := Pulled([Close, c, EndOfData], [], 15, 3);
    AfterAfter([a], [b], third);
    Five(a, b, Close, c, EndOfData);
  }

  lemma Five<T>(a: T, b: T, c: T, d: T, e: T)
    ensures [a] + [b] + [c, d, e] == [a, b, c, d, e]
  {
  }

  /** In that example exactly the first 15 bytes of the body are delivered. */
  lemma CloseExampleDelivers(body: seq<byte>)
    requires |body| == 25
    ensures Delivered(Pull(body, 0, 12, 5, [], 0).events) == body[..15]
  {
    CloseExample(body);
    var a, b, c := body[..5], body[5..10], body[10..15];
    var t3 := [Close] + ([Chunk(c)] + [EndOfData]);
    var t2 := [Chunk(b)] + t3;
    DeliveredCons(EndOfData, []);
    DeliveredCons(Chunk(c), [EndOfData]);
    assert Delivered([Chunk(c)] + [EndOfData]) == c;
    DeliveredCons(Close, [Chunk(c)] + [EndOfData]);
    assert Delivered(t3) == c;
    DeliveredCons(Chunk(b), t3);
    DeliveredCons(Chunk(a), t2);
    assert Delivered([Chunk(a)] + t2) == a + (b + c);
    assert [Chunk(a)] + t2 == [Chunk(a), Chunk(b), Close, Chunk(c), EndOfData];
    ConcatAssoc(a, b, c);
    SliceJoin(body, 5, 10);
    SliceJoin(body, 10, 15);
  }

  // ---------------------------------------------------------------- construction

  /** The configuration record; `None` is a property that is left out. */
  datatype Options = Options(
    url: Option<string>,
    httpMethod: Option<string>,
    headers: Record,
    rawHeaders: Option<seq<JsValue>>,
    httpVersion: Option<string>,
    trailers: Option<Record>,
    connection: Option<Record>,
    buffer: Option<seq<byte>>,
    emitClose: int)

  /** What the constructor is called with: nothing, a URL string, or an options record. */
  datatype Init = NoArgument | UrlString(url: string) | WithOptions(options: Options)

  const NoOptions := Options(None, None, [], None, None, None, None, None, 0)

  const DefaultConnection: Record := [("remoteAddress", Text("127.0.0.1")), ("remotePort", Number(51501))]

  /** `typeof options === 'string'` becomes `{url: options}`; a missing one becomes `{}`. */
  function Normalize(init: Init): (o: Options)
    ensures init.UrlString? ==> o == NoOptions.(url := Some(init.url))
    ensures init.NoArgument? ==> o.url.None? && o.httpMethod.None? && o.headers == [] && o.rawHeaders.None?
  {
    match init
    case NoArgument => NoOptions
    case UrlString(u) => NoOptions.(url := Some(u))
    case WithOptions(o) => o
  }

  /** The `rawHeaders` option counts only as an array of even length. */
  predicate UsesRawHeaders(o: Options) {
    o.rawHeaders.Some? && |o.rawHeaders.value| % 2 == 0
  }

  /** The constructor needs a string in every name slot of a `rawHeaders` it uses. */
  predicate WellFormed(o: Options) {
    UsesRawHeaders(o) ==> RawNames(o.rawHeaders.value)
  }

  /** The pairs the constructor installs with `setHeader`: those of the raw array if it is
      used, otherwise the properties of the `headers` record in order. */
  function InitialPairs(o: Options): (pairs: Pairs)
    requires WellFormed(o)
    ensures UsesRawHeaders(o) ==> Flat(pairs) == o.rawHeaders.value
    ensures !UsesRawHeaders(o) ==> pairs == o.headers
  {
    if UsesRawHeaders(o) then PairsOf(o.rawHeaders.value) else o.headers
  }

  /** The protocol version the constructor assigns: the option when it is a non-empty
      string, otherwise "1.0". */
  function VersionOption(o: Options): (v: string)
    ensures v != ""
    ensures o.httpVersion.Some? && o.httpVersion.value != "" ==> v == o.httpVersion.value
    ensures !(o.httpVersion.Some? && o.httpVersion.value != "") ==> v == "1.0"
  {
    if o.httpVersion.Some? && o.httpVersion.value != "" then o.httpVersion.value else "1.0"
  }

  /** The connection record: the defaults, with the option's properties assigned onto them. */
  function ConnectionOption(o: Options): Record
  {
    if o.connection.Some? then PutAll(DefaultConnection, o.connection.value) else DefaultConnection
  }

  /** A request built from a usable raw array keeps that array exactly, and its header map
      holds each name lower-cased with the value of its last occurrence; otherwise the
      `headers` option is installed in order, its names lower-cased in the map. */
  lemma ConstructedHeaders(o: Options, key: string)
    requires WellFormed(o)
    ensures UsesRawHeaders(o) ==> Flat(InitialPairs(o)) == o.rawHeaders.value
    ensures !UsesRawHeaders(o) ==> Flat(InitialPairs(o)) == Flat(o.headers)
    ensures Find(HeadersOf(InitialPairs(o)), key) == LastRaw(InitialPairs(o), key)
    ensures forall k :: k in Keys(HeadersOf(InitialPairs(o))) ==> IsLower(k)
  {
    HeadersOfFind(InitialPairs(o), key);
  }

  /** The connection overrides are merged onto the defaults property by property: a field
      that is not overridden keeps its default. */
  lemma ConnectionMerge(over: Record, field: string)
    ensures Find(PutAll(DefaultConnection, over), field) ==
      if field in Keys(over) then FindLast(over, field) else Find(DefaultConnection, field)
  {
    PutAllFind(DefaultConnection, over, field);
  }

  /** The body of the `_read` loop: the chunk is cut from the front of the buffer, and when
      the count including it reaches the close threshold the rest of the buffer is dropped
      and `close` is signalled before the chunk is pushed. */
  method CutChunk(pending: seq<byte>, count: int, emitClose: int, size: nat) returns (pushed: seq<ReadEvent>, rest: seq<byte>, n: nat)
    requires size > 0 && pending != []
    ensures Turn(n, rest, pushed) == Cut(pending, count, emitClose, size)
  {
    n := if size > |pending| then |pending| else size;
    var chunk := pending[..n];
    rest := pending[n..];
    var signal: seq<ReadEvent> := [];
    if emitClose != 0 && emitClose <= count + n {
      rest := [];
      signal := [Close];
    }
    pushed := signal + [Chunk(chunk)];
  }

  /** The loop of `removeHeader` that rebuilds the raw list: it keeps, in order, every pair
      whose name does not match `key` once lower-cased. */
  method KeepOthers(pairs: Pairs, key: string) returns (kept: Pairs)
    ensures kept == DropRaw(pairs, key)
  {
    kept := [];
    var i := 0;
    while i < |pairs|
      invariant 0 <= i <= |pairs|
      invariant kept == DropRaw(pairs[..i], key)
    {
      var (rawName, value) := pairs[i];
      ghost var done := pairs[..i + 1];
      assert done[..i] == pairs[..i] && done[i] == (rawName, value);
      if Lower(rawName) != key {
        kept := kept + [(rawName, value)];
      }
      i := i + 1;
    }
    assert pairs[..i] == pairs;
  }

  // ---------------------------------------------------------------- the request object

  class Request {
    var url: string
    var httpMethod: string
    /** `_internal.httpVersion`, what the `httpVersion` property reads. */
    var httpVersion: string
    var httpVersionMajor: IntOrNaN
    var httpVersionMinor: IntOrNaN
    var headers: Record
    /** The `rawHeaders` array, grouped into name/value pairs: the array is `Flat(rawHeaders)`. */
    var rawHeaders: Pairs
    var trailers: Record
    var connection: Record
    /** `_internal.buffer`: the body bytes not yet pushed. */
    var buffer: seq<byte>
    /** `_internal.emitClose`; 0 when the option was falsy. */
    var emitClose: int
    var emitCloseCount: int
    var timedout: bool
    /** The armed timers, in arming order; each says whether it has a callback. */
    var timers: seq<bool>

    /** The header map is the one the raw pairs build: both representations agree. */
    predicate Valid()
      reads this
    {
      headers == HeadersOf(rawHeaders)
    }

    /** `new Request(options)`. */
    constructor (init: Init)
      requires WellFormed(Normalize(init))
      ensures Valid()
      ensures url == Normalize(init).url.GetOr("/")
      ensures httpMethod == Normalize(init).httpMethod.GetOr("GET")
      ensures rawHeaders == InitialPairs(Normalize(init))
      ensures trailers == Normalize(init).trailers.GetOr([])
      ensures httpVersion == VersionOption(Normalize(init))
      ensures (httpVersionMajor, httpVersionMinor) == VersionNumbers(Normalize(init).httpVersion.GetOr(""), Int(1), Int(0))
      ensures connection == ConnectionOption(Normalize(init))
      ensures emitClose == Normalize(init).emitClose && emitCloseCount == 0
      ensures buffer == Normalize(init).buffer.GetOr([])
      ensures !timedout && timers == []
    {
      var o := Normalize(init);
      url := o.url.GetOr("/");
      httpMethod := o.httpMethod.GetOr("GET");
      var version := VersionOption(o);
      var numbers := VersionNumbers(o.httpVersion.GetOr(""), Int(1), Int(0));
      httpVersion := version;
      httpVersionMajor := numbers.0;
      httpVersionMinor := numbers.1;
      headers := [];
      rawHeaders := [];
      trailers := o.trailers.GetOr([]);
      connection := ConnectionOption(o);
      buffer := o.buffer.GetOr([]);
      emitClose := o.emitClose;
      emitCloseCount := 0;
      timedout := false;
      timers := [];
      new;
      InstallHeaders(InitialPairs(o));
    }

    /** The constructor's header loop: each pair in turn goes through `setHeader`, starting
        from no headers. */
    method InstallHeaders(pairs: Pairs)
      requires headers == [] && rawHeaders == []
      modifies this`headers, this`rawHeaders
      ensures Valid()
      ensures rawHeaders == pairs
    {
      var i := 0;
      while i < |pairs|
        invariant 0 <= i <= |pairs|
        invariant rawHeaders == pairs[..i]
        invariant Valid()
      {
        SetHeader(pairs[i].0, pairs[i].1);
        TakeSucc(pairs, i);
        i := i + 1;
      }
      TakeAll(pairs);
    }

    /** The `httpVersion` setter: the string is always stored; the numbers change only when it
        has exactly two dot-separated parts. */
    method SetHttpVersion(value: string)
      modifies this`httpVersion, this`httpVersionMajor, this`httpVersionMinor
      ensures httpVersion == value
      ensures (httpVersionMajor, httpVersionMinor) == VersionNumbers(value, old(httpVersionMajor), old(httpVersionMinor))
    {
      var parts := SplitOn(value, '.');
      httpVersion := value;
      if |parts| == 2 {
        httpVersionMajor := ParseInt(parts[0]);
        httpVersionMinor := ParseInt(parts[1]);
      }
    }

    /** `_read(size)`, with `accepts` answering whether each push is taken; returns what was
        pushed, in order. */
    method Read(size: nat, accepts: seq<bool>) returns (events: seq<ReadEvent>)
      requires size > 0
      modifies this`buffer, this`emitCloseCount
      ensures events == Pull(old(buffer), old(emitCloseCount), emitClose, size, accepts, 0).events
      ensures buffer == Pull(old(buffer), old(emitCloseCount), emitClose, size, accepts, 0).buffer
      ensures emitCloseCount == Pull(old(buffer), old(emitCloseCount), emitClose, size, accepts, 0).count
    {
      ghost var goal := Pull(buffer, emitCloseCount, emitClose, size, accepts, 0);
      var pending, count, sz := buffer, emitCloseCount, size;
      var k: nat := 0;
      events := [];
      while |pending| > 0
        invariant sz > 0
        invariant After(events, Pull(pending, count, emitClose, sz, accepts, k)) == goal
        decreases |pending|
      {
        ghost var before := events;
        var pushed, rest, n := CutChunk(pending, count, emitClose, sz);
        events := events + pushed;
        pending, count, sz := rest, count + n, n;
        if !Accepts(accepts, k) {
          buffer, emitCloseCount := pending, count;
          return;
        }
        AfterAfter(before, pushed, Pull(pending, count, emitClose, sz, accepts, k + 1));
        k := k + 1;
      }
      assert Pull(pending, count, emitClose, sz, accepts, k).events == [EndOfData];
      buffer, emitCloseCount := pending, count;
      events := events + [EndOfData];
    }

    /** `setTimeout(msecs, callback)`: a falsy `msecs` (0) arms nothing. */
    method SetTimeout(msecs: int, hasCallback: bool)
      modifies this`timers
      ensures timers == if msecs == 0 then old(timers) else old(timers) + [hasCallback]
    {
      if msecs != 0 {
        timers := timers + [hasCallback];
      }
    }

    /** The armed timer `i` expires: the request is marked timed out, and the callback, if one
        was given, is due (reported as `callbackDue`). Nothing else changes. */
    method FireTimeout(i: nat) returns (callbackDue: bool)
      requires i < |timers|
      modifies this`timers, this`timedout
      ensures timedout
      ensures callbackDue == old(timers[i])
      ensures timers == old(timers[..i] + timers[i + 1..])
    {
      callbackDue := timers[i];
      timedout := true;
      timers := timers[..i] + timers[i + 1..];
    }

    /** `setHeader(name, value)`: the lower-cased name maps to the value and the pair goes to
        the end of the raw list. */
    method SetHeader(name: string, value: JsValue)
      requires Valid()
      modifies this`headers, this`rawHeaders
      ensures Valid()
      ensures headers == Put(old(headers), Lower(name), value)
      ensures rawHeaders == old(rawHeaders) + [(name, value)]
    {
      var raw := rawHeaders + [(name, value)];
      assert raw[..|raw| - 1] == rawHeaders;
      headers := Put(headers, Lower(name), value);
      rawHeaders := raw;
    }

    /** `getHeader(name)`, case-insensitive: the value of the last raw pair with that name in
        any casing, or `undefined` (inherited members of the header object are not modelled). */
    function GetHeader(name: string): (v: JsValue)
      requires Valid()
      reads this
      ensures v == LastRaw(rawHeaders, Lower(name)).GetOr(Undefined)
    {
      HeadersOfFind(rawHeaders, Lower(name));
      Get(headers, Lower(name))
    }

    /** `removeHeader(name)`: the lower-cased entry goes from the map, and every raw pair whose
        name matches in any casing goes from the list, the others keeping their order. */
    method RemoveHeader(name: string)
      requires Valid()
      modifies this`headers, this`rawHeaders
      ensures Valid()
      ensures headers == Delete(old(headers), Lower(name))
      ensures rawHeaders == DropRaw(old(rawHeaders), Lower(name))
    {
      var key := Lower(name);
      DropRawHeaders(rawHeaders, key);
      headers := Delete(headers, key);
      rawHeaders := KeepOthers(rawHeaders, key);
    }

    /** `setBuffer(data)`: the pending body becomes the UTF-8 bytes of `data`. */
    method SetBuffer(data: string)
      modifies this`buffer
      ensures buffer == Utf8(data)
    {
      buffer := Utf8(data);
    }
  }
}
