/** `lib/response.js`: the mock server response, a writable byte sink that records the
    status line, the headers and the body it is given, with the gate that refuses header
    changes once the headers count as sent. */
module MockResponse {
  import opened Js
  import opened Text
  import opened Append
  import opened StatusCodes

  const SetAfterSent := "Can't set headers after they are sent."
  const RemoveAfterSent := "Can't remove headers after they are sent."

  /** Everything a response holds. `headers` is keyed by lower-cased name, `rawHeaders` by the
      name as given; `statusCode` is `None` while undefined, and `statusMessage` is `None` when
      the status table had no phrase for the code. `armed` holds the timers still pending,
      each with whether it has a callback; `timer` is the handle the response kept last and
      `nextTimer` the next fresh handle. `sinkEnded` is the writable side's own ending, after
      which no more data is taken in, and `endSignals` counts the 'end' events raised. */
  datatype State = State(
    headers: Record,
    rawHeaders: Record,
    trailers: Record,
    buffer: seq<byte>,
    statusCode: Option<int>,
    statusMessage: Option<string>,
    reasonPhrase: JsValue,
    headersSent: bool,
    sendDate: bool,
    ended: bool,
    timedout: bool,
    armed: map<nat, bool>,
    timer: Option<nat>,
    nextTimer: nat,
    sinkEnded: bool,
    endSignals: nat)

  /** A new response: nothing sent, nothing written, no status code yet, the date on. */
  const Fresh := State([], [], [], [], None, Some(""), Undefined, false, true, false, false, map[], None, 0, false, 0)

  /** The records never hold a property twice, and every timer handle in use was handed out. */
  predicate Consistent(s: State) {
    UniqueKeys(s.headers) && UniqueKeys(s.rawHeaders) && UniqueKeys(s.trailers) &&
    (forall id :: id in s.armed ==> id < s.nextTimer) &&
    (s.timer.Some? ==> s.timer.value < s.nextTimer)
  }

  // ---------------------------------------------------------------- headers

  /** `setHeader(name, value)`: refused once the headers are sent; otherwise the value goes
      under the lower-cased name in `headers` and under the name as given in `rawHeaders`. */
  function SetHeaderStep(s: State, name: string, value: JsValue): (r: (State, Outcome))
    ensures s.headersSent ==> r == (s, Threw(SetAfterSent))
    ensures !s.headersSent ==>
      r.1 == Completed &&
      Find(r.0.headers, Lower(name)) == Some(value) &&
      (forall k :: k != Lower(name) ==> Find(r.0.headers, k) == Find(s.headers, k)) &&
      Find(r.0.rawHeaders, name) == Some(value) &&
      (forall k :: k != name ==> Find(r.0.rawHeaders, k) == Find(s.rawHeaders, k)) &&
      r.0 == s.(headers := r.0.headers, rawHeaders := r.0.rawHeaders)
    ensures Consistent(s) ==> Consistent(r.0)
  {
    if s.headersSent then (s, Threw(SetAfterSent))
    else
      PutKeys(s.headers, Lower(name), value);
      PutKeys(s.rawHeaders, name, value);
      (s.(headers := Put(s.headers, Lower(name), value), rawHeaders := Put(s.rawHeaders, name, value)), Completed)
  }

  /** `getHeader(name)`: the lower-cased name looked up among the own properties of the
      store, `undefined` when absent (inherited members are not modelled). */
  function GetHeader(s: State, name: string): JsValue {
    Get(s.headers, Lower(name))
  }

  /** `hasHeader(name)`: the lower-cased name holds something other than `undefined` or
      `null` (loose `!=`), among the own properties of the store. */
  function HasHeader(s: State, name: string): (b: bool)
    ensures b ==> Lower(name) in Keys(s.headers)
    ensures Lower(name) in Keys(s.headers) && !b ==> Nullish(GetHeader(s, name))
  {
    FindIn(s.headers, Lower(name));
    !Nullish(GetHeader(s, name))
  }

  /** Looking a header up ignores the casing of the name asked for, and a header set under
      any casing is then found under every casing of it. */
  lemma GetHeaderAnyCase(s: State, name: string, value: JsValue, other: string)
    requires !s.headersSent && Lower(other) == Lower(name)
    ensures GetHeader(SetHeaderStep(s, name, value).0, other) == value
    ensures HasHeader(SetHeaderStep(s, name, value).0, other) <==> !Nullish(value)
  {
  }

  /** `removeHeader(name)`: refused once the headers are sent; otherwise the lower-cased
      entry goes only when its value is truthy, and `rawHeaders` is never touched. */
  function RemoveHeaderStep(s: State, name: string): (r: (State, Outcome))
    ensures s.headersSent ==> r == (s, Threw(RemoveAfterSent))
    ensures !s.headersSent ==>
      r.1 == Completed &&
      r.0 == s.(headers := r.0.headers) &&
      (forall k :: k != Lower(name) ==> Find(r.0.headers, k) == Find(s.headers, k)) &&
      (Truthy(GetHeader(s, name)) ==> Find(r.0.headers, Lower(name)) == None) &&
      (!Truthy(GetHeader(s, name)) ==> r.0 == s)
    ensures Consistent(s) ==> Consistent(r.0)
  {
    if s.headersSent then (s, Threw(RemoveAfterSent))
    else
      var key := Lower(name);
      if Truthy(Get(s.headers, key)) then (s.(headers := Delete(s.headers, key)), Completed)
      else (s, Completed)
  }

  /** A header holding a falsy value that is not `undefined` or `null` (`''`, `0`, `false`)
      survives `removeHeader`, and `hasHeader` still reports it. */
  lemma RemoveKeepsFalsy(s: State, name: string)
    requires !s.headersSent && Lower(name) in Keys(s.headers)
    requires !Truthy(GetHeader(s, name)) && !Nullish(GetHeader(s, name))
    ensures RemoveHeaderStep(s, name).1 == Completed
    ensures HasHeader(RemoveHeaderStep(s, name).0, name)
  {
  }

  /** `getHeaders()`: a fresh object with every header under its lower-cased name, built in
      the order of `headers`. */
  function LowerKeys(h: Record): (r: Record)
    ensures UniqueKeys(r)
    ensures forall k :: k in Keys(r) ==> IsLower(k)
    decreases |h|
  {
    if h == [] then []
    else
      var n := |h| - 1;
      var before := LowerKeys(h[..n]);
      PutKeys(before, Lower(h[n].0), h[n].1);
      LowerIsLower(h[n].0);
      Put(before, Lower(h[n].0), h[n].1)
  }

  function GetHeaders(s: State): Record {
    LowerKeys(s.headers)
  }

  /** `getHeaderNames()`: the names of `headers` in order, lower-cased. */
  function GetHeaderNames(s: State): (names: seq<string>)
    ensures |names| == |s.headers|
    ensures forall i :: 0 <= i < |names| ==> names[i] == Lower(s.headers[i].0)
  {
    LowerAll(Keys(s.headers))
  }

  function LowerAll(ks: seq<string>): (out: seq<string>)
    ensures |out| == |ks| && forall i :: 0 <= i < |ks| ==> out[i] == Lower(ks[i])
  {
    if ks == [] then [] else [Lower(ks[0])] + LowerAll(ks[1..])
  }

  /** With lower-case, distinct names, as `setHeader` leaves them, `getHeaders()` hands back
      the headers as they are. */
  lemma {:induction false} GetHeadersOfLower(h: Record)
    requires UniqueKeys(h) && forall i :: 0 <= i < |h| ==> IsLower(h[i].0)
    ensures LowerKeys(h) == h
    decreases |h|
  {
    if h != [] {
      var n := |h| - 1;
      var init, last := h[..n], h[n];
      UniqueKeysInit(h);
      forall i | 0 <= i < |init| ensures IsLower(init[i].0) {
        assert init[i] == h[i];
      }
      GetHeadersOfLower(init);
      LowerOfLower(last.0);
      assert LowerKeys(h) == Put(init, last.0, last.1);
      PutNew(init, last.0, last.1);
      TakeSucc(h, n);
      TakeAll(h);
    }
  }

  /** With lower-case names `getHeaderNames()` lists exactly the names of `headers`. */
  lemma GetHeaderNamesOfLower(s: State)
    requires forall i :: 0 <= i < |s.headers| ==> IsLower(s.headers[i].0)
    ensures GetHeaderNames(s) == Keys(s.headers)
  {
    var names := GetHeaderNames(s);
    forall i | 0 <= i < |names| ensures names[i] == Keys(s.headers)[i] {
      LowerOfLower(s.headers[i].0);
    }
  }

  /** The `_headerNames` getter: for each raw name, the lower-cased name maps to the name as
      given, a later casing replacing an earlier one. */
  function NamesOf(raw: Record): (names: Record)
    ensures UniqueKeys(names)
    decreases |raw|
  {
    if raw == [] then []
    else
      var n := |raw| - 1;
      var before := NamesOf(raw[..n]);
      PutKeys(before, Lower(raw[n].0), Text(raw[n].0));
      Put(before, Lower(raw[n].0), Text(raw[n].0))
  }

  /** Every raw name is listed under its lower-cased form, and every listed entry is a raw
      name that lower-cases to its key. */
  lemma {:induction false} NamesOfFind(raw: Record, key: string)
    ensures forall name :: name in Keys(raw) ==> Find(NamesOf(raw), Lower(name)).Some?
    ensures Find(NamesOf(raw), key).Some? ==>
      exists name :: name in Keys(raw) && Lower(name) == key && Find(NamesOf(raw), key) == Some(Text(name))
    decreases |raw|
  {
    if raw != [] {
      var n := |raw| - 1;
      var init := raw[..n];
      NamesOfFind(init, key);
      KeysSnoc(raw);
      forall name | name in Keys(raw) ensures Find(NamesOf(raw), Lower(name)).Some? {
        if name != raw[n].0 {
          assert name in Keys(init);
          NamesOfFind(init, Lower(name));
        }
      }
      if Find(NamesOf(raw), key).Some? && key != Lower(raw[n].0) {
        var name :| name in Keys(init) && Lower(name) == key && Find(NamesOf(init), key) == Some(Text(name));
        assert name in Keys(raw);
      }
    }
  }

  // ---------------------------------------------------------------- body and status line

  /** `write(data, encoding)`: the writable side turns a string chunk into bytes and hands it
      to `_write`, which appends it to the buffer; once that side has ended the chunk is
      refused (`accepted` is false). A string is taken as UTF-8 whatever `encoding` says, where
      Node would decode it with that encoding. */
  function WriteStep(s: State, data: Data, encoding: Option<string>): (r: (State, bool))
    requires !data.Omitted?
    ensures r.1 <==> !s.sinkEnded
    ensures r.1 ==> r.0 == s.(buffer := s.buffer + BytesOf(data))
    ensures !r.1 ==> r.0 == s
  {
    if s.sinkEnded then (s, false)
    else (s.(buffer := Append.Append(Some(s.buffer), data, encoding).value), true)
  }

  /** `statusCode || 200`: an undefined or zero code becomes 200. */
  function FinalCode(code: Option<int>): (c: int)
    ensures c != 0
    ensures code.Some? && code.value != 0 ==> c == code.value
    ensures !(code.Some? && code.value != 0) ==> c == 200
  {
    if code.Some? && code.value != 0 then code.value else 200
  }

  /** The headers after `end` when `sendDate` is on: the date under the key "Date", exactly as
      written (not lower-cased). */
  function Dated(h: Record, sendDate: bool, now: string): (r: Record)
    ensures sendDate ==> Find(r, "Date") == Some(Text(now))
    ensures !sendDate ==> r == h
    ensures forall k :: k != "Date" ==> Find(r, k) == Find(h, k)
    ensures UniqueKeys(h) ==> UniqueKeys(r)
  {
    PutKeys(h, "Date", Text(now));
    if sendDate then Put(h, "Date", Text(now)) else h
  }

  /** `clearTimeout(timer)`: only the timer the response kept is cancelled. */
  function Cleared(armed: map<nat, bool>, timer: Option<nat>): (r: map<nat, bool>)
    ensures forall id :: id in r <==> id in armed && Some(id) != timer
    ensures forall id :: id in r ==> r[id] == armed[id]
  {
    if timer.Some? then armed - {timer.value} else armed
  }

  /** The body after the writable side's `end(data)`: the data is written first unless that
      side has already ended. A string is taken as UTF-8 whatever the encoding. */
  function Taken(buffer: seq<byte>, sinkEnded: bool, data: Data, encoding: Option<string>): (r: seq<byte>)
    ensures r == if sinkEnded || data.Omitted? then buffer else buffer + BytesOf(data)
  {
    if sinkEnded then buffer else Append.Append(Some(buffer), data, encoding).value
  }

  /** `end(data, encoding)` at wall-clock time `now`. A response that timed out after it was
      ended (a timeout without callback ends it) ignores the call. Otherwise the date goes
      in, the response is ended with headers sent and a final status, the kept timer is
      cleared, the last data is taken in unless the writable side already ended, and an
      'end' event is raised. */
  function EndStep(s: State, data: Data, encoding: Option<string>, now: string): (r: State)
    ensures s.timedout && s.ended ==> r == s
    ensures !(s.timedout && s.ended) ==>
      r.ended && r.headersSent && r.sinkEnded && r.endSignals == s.endSignals + 1 &&
      r.statusCode == Some(FinalCode(s.statusCode)) &&
      r.statusMessage == Some(StatusText(FinalCode(s.statusCode)).GetOr("")) &&
      r == s.(headers := Dated(s.headers, s.sendDate, now),
              buffer := Taken(s.buffer, s.sinkEnded, data, encoding),
              statusCode := r.statusCode, statusMessage := r.statusMessage,
              headersSent := true, ended := true,
              armed := Cleared(s.armed, s.timer), sinkEnded := true, endSignals := r.endSignals)
    ensures Consistent(s) ==> Consistent(r)
  {
    if s.timedout && s.ended then s
    else
      var code := FinalCode(s.statusCode);
      s.(headers := Dated(s.headers, s.sendDate, now),
         ended := true,
         statusCode := Some(code),
         statusMessage := Some(StatusText(code).GetOr("")),
         headersSent := true,
         armed := Cleared(s.armed, s.timer),
         buffer := Taken(s.buffer, s.sinkEnded, data, encoding),
         sinkEnded := true,
         endSignals := s.endSignals + 1)
  }

  /** `writeContinue()`: status 100 with its phrase, and the headers count as sent. */
  function WriteContinueStep(s: State): (r: State)
    ensures r.headersSent && r.statusCode == Some(100) && r.statusMessage == Some("Continue")
    ensures r == s.(headersSent := true, statusCode := Some(100), statusMessage := Some("Continue"))
  {
    s.(headersSent := true, statusCode := Some(100), statusMessage := StatusText(100))
  }

  /** The second argument of `writeHead`: a reason phrase, or an object of headers in its
      place. */
  datatype Second = Reason(phrase: JsValue) | Props(props: Record)

  /** The overload resolution of `writeHead(statusCode, reasonPhrase, headers)`: a second
      argument of type 'object' is the headers and the phrase becomes `null`. `null` itself
      is such an object, one without properties. */
  function Resolve(second: Second, third: Record): (r: (JsValue, Record))
    ensures second.Props? ==> r == (Null, second.props)
    ensures second.Reason? && second.phrase.Null? ==> r == (Null, [])
    ensures second.Reason? && !IsObject(second.phrase) ==> r == (second.phrase, third)
  {
    match second
    case Props(props) => (Null, props)
    case Reason(phrase) => if IsObject(phrase) then (Null, []) else (phrase, third)
  }

  /** `typeof v === 'object'`; arrays and opaque references are taken to have no enumerable
      properties of their own. */
  predicate IsObject(v: JsValue) {
    v.Null? || v.List? || v.Ref?
  }

  /** `setHeader` on each entry in turn, on headers not yet sent: the pair of the lower-cased
      `headers` and the `rawHeaders` kept under the names as given. */
  function SetAll(headers: Record, raw: Record, hs: Record): (r: (Record, Record))
    ensures UniqueKeys(headers) && UniqueKeys(raw) ==> UniqueKeys(r.0) && UniqueKeys(r.1)
    decreases |hs|
  {
    if hs == [] then (headers, raw)
    else
      var n := |hs| - 1;
      var before := SetAll(headers, raw, hs[..n]);
      PutKeys(before.0, Lower(hs[n].0), hs[n].1);
      PutKeys(before.1, hs[n].0, hs[n].1);
      (Put(before.0, Lower(hs[n].0), hs[n].1), Put(before.1, hs[n].0, hs[n].1))
  }

  lemma SetAllSnoc(headers: Record, raw: Record, hs: Record, i: nat)
    requires i < |hs|
    ensures SetAll(headers, raw, hs[..i + 1]).0 == Put(SetAll(headers, raw, hs[..i]).0, Lower(hs[i].0), hs[i].1)
    ensures SetAll(headers, raw, hs[..i + 1]).1 == Put(SetAll(headers, raw, hs[..i]).1, hs[i].0, hs[i].1)
  {
    TakeSucc(hs, i);
    SnocTake(hs[..i], hs[i]);
  }

  /** `writeHead` keeps a truthy reason phrase before it touches the headers. */
  function KeepPhrase(s: State, phrase: JsValue): (r: State)
    ensures r == s.(reasonPhrase := r.reasonPhrase)
    ensures Truthy(phrase) ==> r.reasonPhrase == phrase
    ensures !Truthy(phrase) ==> r == s
  {
    if Truthy(phrase) then s.(reasonPhrase := phrase) else s
  }

  /** `writeHead(statusCode, reasonPhrase, headers)`: a truthy phrase is kept; each header
      goes through `setHeader`, so once the headers are sent the first one throws and the
      status stays as it was; then the status code and its phrase (`undefined` for a code
      the table lacks) are set and the headers count as sent. */
  function WriteHeadStep(s: State, code: int, second: Second, third: Record): (r: (State, Outcome))
    ensures s.headersSent && |Resolve(second, third).1| > 0 ==>
      r == (KeepPhrase(s, Resolve(second, third).0), Threw(SetAfterSent))
    ensures !(s.headersSent && |Resolve(second, third).1| > 0) ==>
      r.1 == Completed && r.0.headersSent &&
      r.0.statusCode == Some(code) && r.0.statusMessage == StatusText(code) &&
      r.0.reasonPhrase == KeepPhrase(s, Resolve(second, third).0).reasonPhrase
    ensures !(s.headersSent && |Resolve(second, third).1| > 0) ==>
      (r.0.headers, r.0.rawHeaders) == SetAll(s.headers, s.rawHeaders, Resolve(second, third).1)
    ensures !(s.headersSent && |Resolve(second, third).1| > 0) ==>
      r.0 == s.(headers := r.0.headers, rawHeaders := r.0.rawHeaders, statusCode := r.0.statusCode,
                statusMessage := r.0.statusMessage, reasonPhrase := r.0.reasonPhrase, headersSent := true)
    ensures Consistent(s) ==> Consistent(r.0)
  {
    var resolved := Resolve(second, third);
    HeadersStep(KeepPhrase(s, resolved.0), code, resolved.1)
  }

  /** The part of `writeHead` after the phrase: the header loop, then the status line. */
  function HeadersStep(s: State, code: int, hs: Record): (State, Outcome) {
    if s.headersSent && |hs| > 0 then
      (s, Threw(SetAfterSent))
    else
      var merged := SetAll(s.headers, s.rawHeaders, hs);
      (s.(headers := merged.0, rawHeaders := merged.1, statusCode := Some(code), statusMessage := StatusText(code),
          headersSent := true), Completed)
  }

  // ---------------------------------------------------------------- timers and trailers

  /** `setTimeout(msecs, callback)`: a falsy `msecs` arms nothing; otherwise a fresh timer is
      armed and becomes the one the response keeps (an earlier one stays armed). */
  function SetTimeoutStep(s: State, msecs: int, hasCallback: bool): (r: State)
    ensures msecs == 0 ==> r == s
    ensures msecs != 0 ==>
      r.timer.Some? && r.armed == s.armed[r.timer.value := hasCallback] &&
      r == s.(armed := r.armed, timer := r.timer, nextTimer := r.nextTimer)
    ensures Consistent(s) ==> Consistent(r) && (msecs != 0 ==> r.timer.value !in s.armed)
  {
    if msecs == 0 then s
    else
      s.(armed := s.armed[s.nextTimer := hasCallback], timer := Some(s.nextTimer), nextTimer := s.nextTimer + 1)
  }

  /** The armed timer `id` expires: the response is marked timed out and the timer is gone.
      With a callback, only that happens and the callback is due (`r.1`); without one, the
      response also counts as ended, though no headers were sent. */
  function FireStep(s: State, id: nat): (r: (State, bool))
    requires id in s.armed
    ensures r.1 == s.armed[id]
    ensures r.0.timedout && id !in r.0.armed
    ensures r.0.ended == (s.ended || !r.1)
    ensures r.0 == s.(timedout := true, ended := r.0.ended, armed := s.armed - {id})
    ensures Consistent(s) ==> Consistent(r.0)
  {
    var hasCallback := s.armed[id];
    (s.(timedout := true, ended := if hasCallback then s.ended else true, armed := s.armed - {id}), hasCallback)
  }

  /** `addTrailers(headers)`: the entries are copied into `trailers` in order, but only while
      `headers` holds a truthy `trailer` entry; otherwise nothing changes. */
  function AddTrailersStep(s: State, hs: Record): (r: State)
    ensures !Truthy(Get(s.headers, "trailer")) ==> r == s
    ensures Truthy(Get(s.headers, "trailer")) ==> r == s.(trailers := PutAll(s.trailers, hs))
    ensures Consistent(s) ==> Consistent(r)
  {
    PutAllShape(s.trailers, hs);
    if Truthy(Get(s.headers, "trailer")) then s.(trailers := PutAll(s.trailers, hs)) else s
  }

  /** What a trailer holds after `addTrailers`: the last value given for it when the
      `trailer` header is set, its old value otherwise. */
  lemma TrailersGated(s: State, hs: Record, k: string)
    ensures Find(AddTrailersStep(s, hs).trailers, k) ==
      if Truthy(Get(s.headers, "trailer")) && k in Keys(hs) then FindLast(hs, k) else Find(s.trailers, k)
  {
    PutAllFind(s.trailers, hs, k);
  }

  /** The value of the last entry whose name lower-cases to `key`: what a run of `setHeader`
      calls leaves under that key. */
  function LastNamed(hs: Record, key: string): Option<JsValue>
    decreases |hs|
  {
    if hs == [] then None
    else
      var n := |hs| - 1;
      if Lower(hs[n].0) == key then Some(hs[n].1) else LastNamed(hs[..n], key)
  }

  /** After `setHeader` on each entry of a response whose headers are not yet sent, every
      key holds the last value given for it in any casing, and keeps its old value if none
      was given. */
  lemma {:induction false} SetAllFind(headers: Record, raw: Record, hs: Record, key: string)
    ensures Find(SetAll(headers, raw, hs).0, key) == if LastNamed(hs, key).Some? then LastNamed(hs, key) else Find(headers, key)
    decreases |hs|
  {
    if hs != [] {
      SetAllFind(headers, raw, hs[..|hs| - 1], key);
    }
  }

  // ---------------------------------------------------------------- life cycle

  /** A timeout without callback ends the response without sending headers, and a later
      `end` is then ignored altogether: no status, no date, no 'end' event. */
  lemma TimeoutWithoutCallback(s: State, id: nat, data: Data, encoding: Option<string>, now: string)
    requires id in s.armed && !s.armed[id]
    ensures FireStep(s, id).0.ended && FireStep(s, id).0.headersSent == s.headersSent
    ensures EndStep(FireStep(s, id).0, data, encoding, now) == FireStep(s, id).0
  {
  }

  /** A timeout with a callback only marks the response timed out: a later `end` still ends
      it, sends the headers and raises 'end'. */
  lemma TimeoutWithCallback(s: State, id: nat, data: Data, encoding: Option<string>, now: string)
    requires id in s.armed && s.armed[id] && !s.ended
    ensures !FireStep(s, id).0.ended
    ensures EndStep(FireStep(s, id).0, data, encoding, now).headersSent
    ensures EndStep(FireStep(s, id).0, data, encoding, now).endSignals == s.endSignals + 1
  {
  }

  /** Writing a string and ending with the same string leaves it twice in the body, with
      strings taken as UTF-8. */
  lemma WriteThenEnd(s: State, x: string, e1: Option<string>, e2: Option<string>, now: string)
    requires !s.sinkEnded && !(s.timedout && s.ended)
    ensures EndStep(WriteStep(s, Str(x), e1).0, Str(x), e2, now).buffer == s.buffer + Utf8(x + x)
  {
    Utf8Concat(x, x);
    ConcatAssoc(s.buffer, Utf8(x), Utf8(x));
  }

  /** A second `end` takes no more data in and changes nothing but the date and the count of
      'end' events; after a timeout it is ignored. */
  lemma EndAgain(s: State, d1: Data, e1: Option<string>, now1: string, d2: Data, e2: Option<string>, now2: string)
    requires !(s.timedout && s.ended)
    ensures s.timedout ==> EndStep(EndStep(s, d1, e1, now1), d2, e2, now2) == EndStep(s, d1, e1, now1)
    ensures !s.timedout ==> (EndStep(EndStep(s, d1, e1, now1), d2, e2, now2) ==
      EndStep(s, d1, e1, now1).(headers := Dated(EndStep(s, d1, e1, now1).headers, s.sendDate, now2),
                                endSignals := s.endSignals + 2))
  {
    var r1 := EndStep(s, d1, e1, now1);
    if !s.timedout {
      assert Cleared(r1.armed, r1.timer) == r1.armed;
    }
  }

  /** `end` stores the date under "Date" in a map whose other keys are lower case, so
      `getHeader('date')` does not see it ... */
  lemma DateKeyAsWritten(h: Record, now: string)
    ensures Get(Dated(h, true, now), Lower("date")) == Get(h, Lower("date"))
  {
    LowerDate();
  }

  /** ... while `getHeaders()`, after the first `end`, lists it under "date". */
  lemma DateListedLowerCased(h: Record, now: string)
    requires "Date" !in Keys(h)
    ensures Find(LowerKeys(Dated(h, true, now)), "date") == Some(Text(now))
  {
    PutNew(h, "Date", Text(now));
    LowerKeysSnoc(h, "Date", Text(now));
    LowerDate();
  }

  lemma LowerDate()
    ensures Lower("Date") == "date" && Lower("date") == "date"
  {
    LowerAt("Date", 0); LowerAt("Date", 1); LowerAt("Date", 2); LowerAt("Date", 3);
    LowerAt("date", 0); LowerAt("date", 1); LowerAt("date", 2); LowerAt("date", 3);
  }

  lemma LowerKeysSnoc(h: Record, k: string, v: JsValue)
    ensures LowerKeys(h + [(k, v)]) == Put(LowerKeys(h), Lower(k), v)
  {
    SnocTake(h, (k, v));
  }

  /** An object in place of the reason phrase is the same call as that object passed as the
      headers with no phrase. */
  lemma WriteHeadOverload(s: State, code: int, props: Record, third: Record)
    ensures WriteHeadStep(s, code, Props(props), third) == WriteHeadStep(s, code, Reason(Undefined), props)
  {
  }

  // ---------------------------------------------------------------- the response object

  /** `new Response()`: the fields of `State`, updated in place by the methods below, each of
      which moves the state exactly as the matching step function does. */
  class Response {
    var headers: Record
    var rawHeaders: Record
    var trailers: Record
    var buffer: seq<byte>
    var statusCode: Option<int>
    var statusMessage: Option<string>
    var reasonPhrase: JsValue
    var headersSent: bool
    var sendDate: bool
    var ended: bool
    var timedout: bool
    var armed: map<nat, bool>
    var timer: Option<nat>
    var nextTimer: nat
    var sinkEnded: bool
    var endSignals: nat

    function Snapshot(): State
      reads this
    {
      State(headers, rawHeaders, trailers, buffer, statusCode, statusMessage, reasonPhrase,
        headersSent, sendDate, ended, timedout, armed, timer, nextTimer, sinkEnded, endSignals)
    }

    /** The class invariant: the fields form a `Consistent` state. */
    ghost predicate Valid()
      reads this
    {
      Consistent(Snapshot())
    }

    constructor ()
      ensures Snapshot() == Fresh
      ensures Valid()
    {
      headers, rawHeaders, trailers, buffer := [], [], [], [];
      statusCode, statusMessage, reasonPhrase := None, Some(""), Undefined;
      headersSent, sendDate, ended, timedout := false, true, false, false;
      armed, timer, nextTimer := map[], None, 0;
      sinkEnded, endSignals := false, 0;
    }

    method SetHeader(name: string, value: JsValue) returns (outcome: Outcome)
      modifies this`headers, this`rawHeaders
      ensures headersSent ==> outcome == Threw(SetAfterSent) && unchanged(this`headers, this`rawHeaders)
      ensures !headersSent ==>
        outcome == Completed && headers == Put(old(headers), Lower(name), value) &&
        rawHeaders == Put(old(rawHeaders), name, value)
      ensures (Snapshot(), outcome) == SetHeaderStep(old(Snapshot()), name, value)
      ensures old(Valid()) ==> Valid()
    {
      if headersSent {
        return Threw(SetAfterSent);
      }
      headers := Put(headers, Lower(name), value);
      rawHeaders := Put(rawHeaders, name, value);
      outcome := Completed;
    }

    method RemoveHeader(name: string) returns (outcome: Outcome)
      requires Valid()
      modifies this`headers
      ensures (Snapshot(), outcome) == RemoveHeaderStep(old(Snapshot()), name)
      ensures Valid()
    {
      if headersSent {
        return Threw(RemoveAfterSent);
      }
      var key := Lower(name);
      if Truthy(Get(headers, key)) {
        headers := Delete(headers, key);
      }
      outcome := Completed;
    }

    /** The `_headerNames` getter, which builds a fresh object on every read. */
    method HeaderNames() returns (names: Record)
      ensures names == NamesOf(rawHeaders)
    {
      names := [];
      var i := 0;
      while i < |rawHeaders|
        invariant 0 <= i <= |rawHeaders|
        invariant names == NamesOf(rawHeaders[..i])
      {
        TakeSucc(rawHeaders, i);
        SnocTake(rawHeaders[..i], rawHeaders[i]);
        names := Put(names, Lower(rawHeaders[i].0), Text(rawHeaders[i].0));
        i := i + 1;
      }
      TakeAll(rawHeaders);
    }

    method Write(data: Data, encoding: Option<string>) returns (accepted: bool)
      requires Valid()
      requires !data.Omitted?
      modifies this`buffer
      ensures (Snapshot(), accepted) == WriteStep(old(Snapshot()), data, encoding)
      ensures Valid()
    {
      if sinkEnded {
        return false;
      }
      buffer := Append.Append(Some(buffer), data, encoding).value;
      accepted := true;
    }

    /** The writable side's own `end(data, encoding)`: the last chunk goes through `_write`
        unless that side has already ended, and then it has. */
    method EndWritable(data: Data, encoding: Option<string>)
      modifies this`buffer, this`sinkEnded
      ensures buffer == Taken(old(buffer), old(sinkEnded), data, encoding) && sinkEnded
      ensures Snapshot() == old(Snapshot()).(buffer := Taken(old(buffer), old(sinkEnded), data, encoding), sinkEnded := true)
    {
      if !sinkEnded && !data.Omitted? {
        buffer := Append.Append(Some(buffer), data, encoding).value;
      }
      sinkEnded := true;
    }

    /** With `sendDate` on, `end` stores the date under "Date", a key written as is. */
    method StampDate(now: string)
      modifies this`headers
      ensures headers == Dated(old(headers), old(sendDate), now)
      ensures Snapshot() == old(Snapshot()).(headers := Dated(old(headers), old(sendDate), now))
    {
      if sendDate {
        headers := Put(headers, "Date", Text(now));
      }
    }

    /** The status line `end` settles: `statusCode || 200`, its phrase or the empty string,
        and the headers count as sent. */
    method SendStatus()
      modifies this`statusCode, this`statusMessage, this`headersSent
      ensures statusCode == Some(FinalCode(old(statusCode)))
      ensures statusMessage == Some(StatusText(FinalCode(old(statusCode))).GetOr(""))
      ensures headersSent
      ensures Snapshot() == old(Snapshot()).(statusCode := Some(FinalCode(old(statusCode))),
                                             statusMessage := Some(StatusText(FinalCode(old(statusCode))).GetOr("")),
                                             headersSent := true)
    {
      var code := if statusCode.Some? && statusCode.value != 0 then statusCode.value else 200;
      statusCode := Some(code);
      statusMessage := Some(StatusText(code).GetOr(""));
      headersSent := true;
    }

    method End(data: Data, encoding: Option<string>, now: string)
      requires Valid()
      modifies this`headers, this`ended, this`statusCode, this`statusMessage, this`headersSent
      modifies this`armed, this`buffer, this`sinkEnded, this`endSignals
      ensures old(timedout && ended) ==> unchanged(this)
      ensures !old(timedout && ended) ==> headers == Dated(old(headers), old(sendDate), now)
      ensures !old(timedout && ended) ==> buffer == Taken(old(buffer), old(sinkEnded), data, encoding)
      ensures !old(timedout && ended) ==> armed == Cleared(old(armed), old(timer))
      ensures !old(timedout && ended) ==> statusCode == Some(FinalCode(old(statusCode)))
      ensures !old(timedout && ended) ==> statusMessage == Some(StatusText(FinalCode(old(statusCode))).GetOr(""))
      ensures !old(timedout && ended) ==> ended && headersSent && sinkEnded && endSignals == old(endSignals) + 1
      ensures Snapshot() == EndStep(old(Snapshot()), data, encoding, now)
      ensures Valid()
    {
      if timedout && ended {
        return;
      }
      EndOnce(data, encoding, now);
    }

    /** `end` on a response that has not both timed out and ended. */
    method EndOnce(data: Data, encoding: Option<string>, now: string)
      requires !(timedout && ended)
      modifies this`headers, this`ended, this`statusCode, this`statusMessage, this`headersSent
      modifies this`armed, this`buffer, this`sinkEnded, this`endSignals
      ensures Snapshot() == EndStep(old(Snapshot()), data, encoding, now)
    {
      Finish(now);
      EndWritable(data, encoding);
      endSignals := endSignals + 1;
    }

    /** What `end` does before it hands the last data to the writable side: the date, the
        ended flag, the final status line, and the kept timer cancelled. */
    method Finish(now: string)
      modifies this`headers, this`ended, this`statusCode, this`statusMessage, this`headersSent, this`armed
      ensures headers == Dated(old(headers), old(sendDate), now)
      ensures armed == Cleared(old(armed), old(timer))
      ensures statusCode == Some(FinalCode(old(statusCode)))
      ensures statusMessage == Some(StatusText(FinalCode(old(statusCode))).GetOr(""))
      ensures ended && headersSent
      ensures Snapshot() == old(Snapshot()).(headers := Dated(old(headers), old(sendDate), now), ended := true,
                                             statusCode := Some(FinalCode(old(statusCode))),
                                             statusMessage := Some(StatusText(FinalCode(old(statusCode))).GetOr("")),
                                             headersSent := true, armed := Cleared(old(armed), old(timer)))
    {
      StampDate(now);
      ended := true;
      SendStatus();
      armed := Cleared(armed, timer);
    }

    method WriteContinue()
      requires Valid()
      modifies this`headersSent, this`statusCode, this`statusMessage
      ensures Snapshot() == WriteContinueStep(old(Snapshot()))
      ensures Valid()
    {
      headersSent := true;
      statusCode := Some(100);
      statusMessage := StatusText(100);
    }

    /** The reason phrase `writeHead` keeps when it is truthy. */
    method KeepReason(phrase: JsValue)
      modifies this`reasonPhrase
      ensures Snapshot() == KeepPhrase(old(Snapshot()), phrase)
    {
      if Truthy(phrase) {
        reasonPhrase := phrase;
      }
    }

    /** The status line `writeHead` settles once its headers are set. */
    method SendHead(code: int)
      modifies this`statusCode, this`statusMessage, this`headersSent
      ensures Snapshot() == old(Snapshot()).(statusCode := Some(code), statusMessage := StatusText(code), headersSent := true)
    {
      statusCode := Some(code);
      statusMessage := StatusText(code);
      headersSent := true;
    }

    method WriteHead(code: int, second: Second, third: Record) returns (outcome: Outcome)
      requires Valid()
      modifies this`reasonPhrase, this`headers, this`rawHeaders, this`statusCode, this`statusMessage, this`headersSent
      ensures reasonPhrase == KeepPhrase(old(Snapshot()), Resolve(second, third).0).reasonPhrase
      ensures old(headersSent) && |Resolve(second, third).1| > 0 ==>
        outcome == Threw(SetAfterSent) && headersSent &&
        unchanged(this`headers, this`rawHeaders, this`statusCode, this`statusMessage)
      ensures !(old(headersSent) && |Resolve(second, third).1| > 0) ==>
        outcome == Completed && headersSent && statusCode == Some(code) && statusMessage == StatusText(code) &&
        (headers, rawHeaders) == SetAll(old(headers), old(rawHeaders), Resolve(second, third).1)
      ensures (Snapshot(), outcome) == WriteHeadStep(old(Snapshot()), code, second, third)
      ensures Valid()
    {
      var resolved := Resolve(second, third);
      KeepReason(resolved.0);
      outcome := SendHeaders(code, resolved.1);
    }

    /** The header loop of `writeHead` and, unless it throws, the status line. */
    method SendHeaders(code: int, hs: Record) returns (outcome: Outcome)
      modifies this`headers, this`rawHeaders, this`statusCode, this`statusMessage, this`headersSent
      ensures (Snapshot(), outcome) == HeadersStep(old(Snapshot()), code, hs)
    {
      outcome := SetHeaders(hs);
      if outcome.Threw? {
        return;
      }
      SendHead(code);
    }

    /** The loop of `writeHead`: `setHeader` on each entry in turn, stopping at the first that
        throws, which is the first of all once the headers are sent. */
    method SetHeaders(hs: Record) returns (outcome: Outcome)
      modifies this`headers, this`rawHeaders
      ensures outcome == if headersSent && |hs| > 0 then Threw(SetAfterSent) else Completed
      ensures headersSent ==> unchanged(this`headers, this`rawHeaders)
      ensures !headersSent ==> headers == SetAll(old(headers), old(rawHeaders), hs).0
      ensures !headersSent ==> rawHeaders == SetAll(old(headers), old(rawHeaders), hs).1
      ensures Snapshot() == old(Snapshot()).(headers := headers, rawHeaders := rawHeaders)
    {
      outcome := Completed;
      var i := 0;
      while i < |hs|
        invariant 0 <= i <= |hs|
        invariant outcome == Completed
        invariant headersSent ==> i == 0 && Snapshot() == old(Snapshot())
        invariant !headersSent ==> Snapshot() == old(Snapshot()).(headers := SetAll(old(headers), old(rawHeaders), hs[..i]).0,
                                                                  rawHeaders := SetAll(old(headers), old(rawHeaders), hs[..i]).1)
      {
        SetAllSnoc(old(headers), old(rawHeaders), hs, i);
        outcome := SetHeader(hs[i].0, hs[i].1);
        if outcome.Threw? {
          return;
        }
        i := i + 1;
      }
      TakeAll(hs);
    }

    method SetTimeout(msecs: int, hasCallback: bool)
      requires Valid()
      modifies this`armed, this`timer, this`nextTimer
      ensures Snapshot() == SetTimeoutStep(old(Snapshot()), msecs, hasCallback)
      ensures Valid()
    {
      if msecs == 0 {
        return;
      }
      armed := armed[nextTimer := hasCallback];
      timer := Some(nextTimer);
      nextTimer := nextTimer + 1;
    }

    /** The timer `id` expires; `callbackDue` says whether its callback now runs. */
    method FireTimeout(id: nat) returns (callbackDue: bool)
      requires Valid()
      requires id in armed
      modifies this`timedout, this`ended, this`armed
      ensures (Snapshot(), callbackDue) == FireStep(old(Snapshot()), id)
      ensures Valid()
    {
      callbackDue := armed[id];
      armed := armed - {id};
      timedout := true;
      if !callbackDue {
        ended := true;
      }
    }

    method AddTrailers(hs: Record)
      requires Valid()
      modifies this`trailers
      ensures Snapshot() == AddTrailersStep(old(Snapshot()), hs)
      ensures Valid()
    {
      if Truthy(Get(headers, "trailer")) {
        var i := 0;
        while i < |hs|
          invariant 0 <= i <= |hs|
          invariant trailers == PutAll(old(trailers), hs[..i])
        {
          TakeSucc(hs, i);
          SnocTake(hs[..i], hs[i]);
          trailers := Put(trailers, hs[i].0, hs[i].1);
          i := i + 1;
        }
        TakeAll(hs);
      }
    }
  }
}
