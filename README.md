# mock-http in Dafny

A model of the core of `mock-http`, a library of stand-ins for Node's HTTP server objects
that middleware can be unit-tested against without a socket:

- `MockRequest` (`request.dfy`, from `lib/request.js`): the incoming request. It carries the
  request line (`url`, `method`, the protocol version with its major and minor numbers), a
  header map kept in step with the ordered raw header list, and a body that the readable side
  pulls in chunks. A `close` event fires once the emitted byte count reaches the `emitClose`
  threshold, and the rest of the body is then dropped. The class `Request` holds the fields the
  source updates in place; the pull loop of `_read` is the method `Read`, proved against the
  function `Pull`.
- `MockResponse` (`response.dfy`, from `lib/response.js`): the server response. It records
  the headers under lower-cased and under given names, the status line, the trailers and the
  body written to it. It refuses header changes once the headers count as sent, and it has
  `end`, `writeHead`, `writeContinue`, `setTimeout` and `addTrailers`. The class `Response`
  holds the fields. Each method that changes the response promises that its whole new state,
  read through `Snapshot`, is what a step function on the value `State` gives for the old
  state (`End` and `EndStep`, `WriteHead` and `WriteHeadStep`, and so on), and the properties
  are proved about those functions. The class invariant `Valid` (no header or trailer name
  stored twice, every armed timer handle already handed out) holds after the constructor and
  after every method.
- `Append` (`append.dfy`, from `lib/append.js`): appending a string or a byte buffer to a byte
  buffer.
- `Assign` (`assign.dfy`, from `lib/assign.js`): merging the properties of several objects into
  a target object in place. A trailing boolean switches overwriting off.
- `Pluck` (`pluck.dfy`, from `lib/pluck.js`): copying the properties named in a
  space-separated list into a fresh object.

These rest on three support modules:

- `Js` (`js.dfy`): the JavaScript values the code compares, their truthiness, and objects as
  insertion-ordered association lists with unique keys. `Put` replaces a property in place or
  adds it last, and `Delete` filters it out.
- `Text` (`text.dfy`): ASCII lower-casing, `split`, `parseInt` and UTF-8 encoding.
- `StatusCodes` (`status_codes.dfy`): Node's `http.STATUS_CODES` table.

The clock and timer expiry are parameters. `End` takes the date string `now`, and the
`FireTimeout` methods stand for a timer running out. A consumer's willingness to take more
data is the `accepts` list given to `Read`.

Behaviour of the code that the model keeps, where it differs from the library's documented
intent:

- `end` stores the date under the key `Date` (capital D) in a header map whose other keys are
  lower case. `getHeader('date')` therefore does not see it (`DateKeyAsWritten`), while
  `getHeaders()` lists it under `date` (`DateListedLowerCased`).
- `end` clears only the timer handle the response kept last. An earlier `setTimeout` stays
  armed (`Cleared`).
- `writeHead` and `writeContinue` set `statusMessage` to the table entry without a fallback,
  so an unknown code leaves it `undefined` (`None`). `end` falls back to the empty string.
- `removeHeader` on a response deletes a header only when its value is truthy
  (`RemoveKeepsFalsy`).
- A `_read` that a declined push interrupts does not end the stream. The next `_read` goes on
  from the remaining buffer (`PullEnding`).

## Model

| member | source | states |
|---|---|---|
| Js.Keys | lib/response.js:187 | `Object.keys` lists one name per property, in insertion order |
| Js.FindIn | lib/request.js:178-180 | a lookup fails exactly on absent names, and what it finds is a stored property |
| Js.Put | lib/response.js:168-169 | after `obj[k] = v`, `k` holds `v` and every other property reads as before |
| Js.PutKeys | lib/response.js:168-169 | assignment keeps an existing property in its place, adds a new one last, and keeps names unique |
| Js.Delete | lib/request.js:188 | after `delete obj[k]`, `k` is absent, the other properties read as before and keep their order, and names stay unique |
| Js.DeletePut | lib/request.js:186-198 | deleting a name just assigned is deleting it from the record before the assignment |
| Js.PutDelete | lib/request.js:186-198 | assigning one name and deleting another commute |
| Js.PutNew | lib/response.js:104 | assigning a name not yet present appends it |
| Js.FindLast | lib/assign.js:38-42 | the last value for a name exists exactly when the name occurs, and it is one of its entries |
| Js.PutAllFind | lib/request.js:112 | after `Object.assign(r, e)` a name holds the last value `e` gives it, or its old value when `e` lacks it |
| Js.PutAllShape | lib/request.js:112 | `Object.assign` keeps the target's names first, in order, and names unique |
| Js.SameLookupsSameRecord | lib/request.js:186-198 | two records with unique names, the same names in the same order and the same lookups are equal |
| Js.PutAllIntoEmpty | lib/request.js:112 | copying a record with unique names into an empty object gives that record |
| Text.Lower | lib/response.js:168 | `toLowerCase` keeps the length and lower-cases each character |
| Text.LowerIdempotent | lib/response.js:174 | lower-casing twice is lower-casing once, so a stored key is found again by any casing |
| Text.SplitOn | lib/request.js:98 | `split('.')` gives one more field than there are dots, none holding a dot |
| Text.JoinSplitOn | lib/request.js:98 | joining the fields of `split` with the separator gives the string back |
| Text.SplitOnJoin | lib/request.js:98 | splitting a join of separator-free fields gives the fields back |
| Text.SplitSpace | lib/pluck.js:18 | `split(/\s+/)` gives at least one field, none holding white space |
| Text.JoinSplitSpace | lib/pluck.js:18 | the fields joined by single spaces are the string with each white-space run squeezed to one space |
| Text.ParseIntDecimal | lib/request.js:98 | `parseInt(s, 10)` reads back a decimal numeral, with or without a minus sign |
| Text.ParseIntStopsAtNonDigit | lib/request.js:98 | `parseInt` stops at the first non-digit |
| Text.Utf8Concat | lib/append.js:23 | the UTF-8 bytes of a concatenation are the concatenation of the bytes |
| Text.Utf8Ascii | lib/append.js:23 | an ASCII string encodes to one byte per character, each its code |
| StatusCodes.StatusText | lib/response.js:108 | `STATUS_CODES[code]` is defined only for codes 100 to 599, and never as the empty string |
| Append.Append | lib/append.js:17-25 | with `data` undefined the buffer comes back as it was (even a missing one), otherwise a buffer comes back |
| Append.AppendLayout | lib/append.js:21-24 | the result is the old buffer (empty if missing) followed by the data's bytes, with the length of both together |
| Append.EncodingIgnored | lib/append.js:23 | a string is appended as its UTF-8 bytes whatever `encoding` names |
| Append.AppendTwice | lib/append.js:17-25 | appending two strings in turn is appending their concatenation |
| Append.AppendAscii | lib/append.js:23 | an ASCII string adds exactly one byte per character, each its code |
| Assign.MergeEntriesIsPutAll | lib/assign.js:38-42 | with overwrite on, the inner loop is `Object.assign` of one source |
| Assign.OverwriteLastWins | lib/assign.js:37-43 | with overwrite on, a property ends with the value of the last source that has it, or keeps its own |
| Assign.PreserveEntries | lib/assign.js:38-42 | with overwrite off, one source never changes a property the target holds truthy |
| Assign.PreserveTruthy | lib/assign.js:37-43 | with overwrite off, no source changes a property the target holds truthy |
| Assign.UntouchedEntries | lib/assign.js:38-42 | a property a source lacks is left alone by that source, under either policy |
| Assign.Untouched | lib/assign.js:37-43 | a property no source has is left as it was, under either policy |
| Assign.EntriesShape | lib/assign.js:38-42 | one source keeps the target's names first, in order, and unique |
| Assign.TargetOrderKept | lib/assign.js:37-43 | all sources together keep the target's names first, in order, and unique |
| Assign.Assign | lib/assign.js:27-45 | the target object itself comes back, its properties merged in place, a trailing boolean taken as the overwrite flag (default true) |
| Pluck.Names | lib/pluck.js:18 | a missing `props` reads as `''`, and the names are the white-space-free fields of the split |
| Pluck.PluckedExactly | lib/pluck.js:16-24 | the result holds exactly the listed names whose value is not `undefined`, each with the object's value, without duplicates |
| Pluck.EmptyProps | lib/pluck.js:18 | a missing `props` plucks as `''` does, which plucks nothing unless the object has a property named `''` |
| Pluck.Pluck | lib/pluck.js:16-24 | a fresh object comes back holding the plucked properties |
| MockRequest.Flat | lib/request.js:169-170 | the raw header array has two slots per pair |
| MockRequest.PairsOf | lib/request.js:81-84 | an even-length raw array with string names is read two slots at a time, and flattening gives it back |
| MockRequest.HeadersOfFind | lib/request.js:167-171 | the header map built by `setHeader` calls answers every name with the last raw pair of that name in any casing, and its keys are lower case and unique |
| MockRequest.DropRawConcat | lib/request.js:191-197 | the rebuild of the raw list filters each part of the list on its own |
| MockRequest.DropRawExact | lib/request.js:186-198 | no pair of the removed name survives, and a list without such a pair comes back unchanged |
| MockRequest.DropRawMembers | lib/request.js:191-197 | exactly the pairs whose lower-cased name differs from the removed one survive |
| MockRequest.DropRawHeaders | lib/request.js:186-198 | rebuilding the raw list and deleting from the header map keep the two in agreement |
| MockRequest.ParseVersion | lib/request.js:98-102 | the version string yields a pair of numbers exactly when it holds one dot |
| MockRequest.VersionNumbers | lib/request.js:97-106 | without exactly one dot the major and minor numbers stay as they were |
| MockRequest.ParseVersionDecimal | lib/request.js:97-106 | a version written `<major>.<minor>` is read as those two numbers |
| MockRequest.Cut | lib/request.js:131-133 | each chunk is non-empty, no larger than asked for or than the buffer, and the buffer shrinks |
| MockRequest.DeliveredConcat | lib/request.js:139 | the bytes delivered by two runs of pushes are those of each in turn |
| MockRequest.TurnEvents | lib/request.js:132-139 | a turn delivers exactly its chunk, signals `close` exactly at the threshold, and pushes the chunk last |
| MockRequest.PullChunks | lib/request.js:128-144 | every push is a non-empty chunk of at most the requested size, and end of data comes only last |
| MockRequest.PullCount | lib/request.js:134 | the emitted-byte counter grows by exactly the bytes delivered |
| MockRequest.PullBytes | lib/request.js:128-144 | what is delivered and what stays buffered form a prefix of the buffer, and the whole buffer unless `close` fired |
| MockRequest.PullShape | lib/request.js:130-141 | the first turn on a non-empty buffer makes progress and ends its pushes with a chunk |
| MockRequest.PullStops | lib/request.js:139-143 | a `_read` stops either after a declined push of a chunk or with end of data after every push was taken |
| MockRequest.PullStopsTaken | lib/request.js:139-142 | when the first push is taken, the call stops the way the rest of it stops |
| MockRequest.PullEnding | lib/request.js:128-144 | a `_read` ends the stream exactly when none of its pushes was declined |
| MockRequest.CloseAtThreshold | lib/request.js:135-138 | the turn reaching the threshold sends `close` before its chunk, drops the rest of the buffer, and the stream ends next |
| MockRequest.FullTurn | lib/request.js:130-141 | a full chunk below the threshold, when taken, leaves the rest of the buffer to the next turn |
| MockRequest.CloseExample | lib/request.js:128-144 | a 25-byte body read 5 bytes at a time with threshold 12 pushes two chunks, `close`, the third chunk and end of data |
| MockRequest.CloseExampleDelivers | lib/request.js:135-138 | in that example exactly the first 15 bytes are delivered |
| MockRequest.CutChunk | lib/request.js:131-138 | the loop body cuts, keeps and pushes exactly the turn `Cut` describes |
| MockRequest.Normalize | lib/request.js:39-43 | a string argument is `{url}`, and a missing one sets no option |
| MockRequest.InitialPairs | lib/request.js:81-91 | the raw array is used when it is an even-length array, the header object otherwise |
| MockRequest.VersionOption | lib/request.js:109 | the version assigned is the option when non-empty and `'1.0'` otherwise |
| MockRequest.ConstructedHeaders | lib/request.js:81-91 | a usable raw array is kept exactly, and the header map answers with the last pair of each name and has lower-case keys |
| MockRequest.ConnectionMerge | lib/request.js:111-113 | each connection field is the option's value when given, the default otherwise |
| MockRequest.KeepOthers | lib/request.js:189-197 | the rebuild loop keeps, in order, exactly the pairs of other names |
| MockRequest.Request.constructor | lib/request.js:32-125 | every field gets its option or its default, the headers agree with the raw list, and no timer is armed |
| MockRequest.Request.InstallHeaders | lib/request.js:81-91 | `setHeader` on each pair in turn makes the raw list those pairs and keeps the map in agreement |
| MockRequest.Request.SetHttpVersion | lib/request.js:97-106 | the setter always stores the string, and changes the numbers only for a two-part version |
| MockRequest.Request.Read | lib/request.js:128-144 | the loop pushes, leaves buffered and counts exactly what `Pull` says |
| MockRequest.Request.SetTimeout | lib/request.js:153-160 | a falsy `msecs` arms nothing, any other arms one timer |
| MockRequest.Request.FireTimeout | lib/request.js:156-159 | an expiring timer marks the request timed out, and its callback runs if there is one |
| MockRequest.Request.SetHeader | lib/request.js:167-171 | the lower-cased name maps to the value, the pair is appended to the raw list, and the two stay in agreement |
| MockRequest.Request.GetHeader | lib/request.js:178-180 | a lookup in any casing gives the last raw pair of that name, `undefined` when none |
| MockRequest.Request.RemoveHeader | lib/request.js:186-198 | the entry leaves the map and every pair of that name leaves the raw list, keeping the two in agreement |
| MockRequest.Request.SetBuffer | lib/request.js:227-229 | the pending body becomes the UTF-8 bytes of the data |
| MockResponse.SetHeaderStep | lib/response.js:164-171 | once the headers are sent, `setHeader` throws and changes nothing; otherwise the value goes under the lower-cased and the given name, and nothing else changes |
| MockResponse.HasHeader | lib/response.js:190-192 | a header counts as present only if its name is stored, and a stored one is absent only with an `undefined` or `null` value |
| MockResponse.GetHeaderAnyCase | lib/response.js:164-175 | a header set under one casing is read back under any casing |
| MockResponse.RemoveHeaderStep | lib/response.js:194-203 | once the headers are sent, `removeHeader` throws; otherwise only a truthy entry is deleted, and the raw names are never touched |
| MockResponse.RemoveKeepsFalsy | lib/response.js:199-201 | a header holding `''`, `0` or `false` survives `removeHeader` |
| MockResponse.LowerKeys | lib/response.js:177-184 | `getHeaders()` has lower-case, unique names |
| MockResponse.GetHeaderNames | lib/response.js:186-188 | `getHeaderNames()` lists every stored name lower-cased, in order |
| MockResponse.GetHeadersOfLower | lib/response.js:177-184 | with lower-case unique names, `getHeaders()` returns a copy of the header map |
| MockResponse.GetHeaderNamesOfLower | lib/response.js:186-188 | with lower-case names, `getHeaderNames()` lists exactly the stored names |
| MockResponse.NamesOf | lib/response.js:72-83 | `_headerNames` has unique keys |
| MockResponse.NamesOfFind | lib/response.js:72-83 | every raw name is listed under its lower-cased form, and each listed value is a raw name of that form |
| MockResponse.WriteStep | lib/response.js:121-124 | a write appends the data's bytes while the writable side is open, and is refused after it ended |
| MockResponse.FinalCode | lib/response.js:107 | `statusCode \|\| 200` keeps a non-zero code and gives 200 for a missing or zero one |
| MockResponse.Dated | lib/response.js:103-105 | with `sendDate` on, the date is stored under `Date` and nothing else changes; with it off, nothing changes |
| MockResponse.Cleared | lib/response.js:110 | `clearTimeout` cancels exactly the kept timer |
| MockResponse.Taken | lib/response.js:113-115 | `end(data)` appends the data unless the writable side already ended or no data is given |
| MockResponse.EndStep | lib/response.js:98-118 | a timed-out, ended response ignores `end`; otherwise it is ended with headers sent, a final status and phrase (or `''`), the date, the kept timer cleared, the data taken, and one more 'end' event |
| MockResponse.WriteContinueStep | lib/response.js:128-132 | `writeContinue` sends status 100 "Continue", marks the headers sent, and changes nothing else |
| MockResponse.Resolve | lib/response.js:136-139 | an object as second argument is the header set with no phrase; a `null` one means neither; anything else is the phrase, with the third argument as headers |
| MockResponse.SetAll | lib/response.js:143-145 | installing headers one by one keeps the names of both maps unique |
| MockResponse.KeepPhrase | lib/response.js:140-142 | a truthy reason phrase is stored, and nothing else changes |
| MockResponse.WriteHeadStep | lib/response.js:134-149 | with headers already sent and headers to install, `writeHead` throws after keeping a truthy phrase and before touching anything else; otherwise the headers are those `SetAll` gives, the status code, its phrase from the table, the kept phrase and the sent flag are set, and no other field changes |
| MockResponse.SetTimeoutStep | lib/response.js:151-162 | a falsy `msecs` arms nothing; otherwise a new timer is armed, becomes the kept one, and earlier timers stay armed |
| MockResponse.FireStep | lib/response.js:154-161 | an expiring timer marks the response timed out; with no callback it also ends it, and nothing else changes |
| MockResponse.AddTrailersStep | lib/response.js:205-211 | the trailers are copied in only while a truthy `trailer` header is set |
| MockResponse.TrailersGated | lib/response.js:205-211 | a trailer ends with the last value given when the gate is open, and keeps its old value otherwise |
| MockResponse.SetAllFind | lib/response.js:143-145 | after installing headers, each key holds the last value given in any casing, or its old one |
| MockResponse.TimeoutWithoutCallback | lib/response.js:99-102 | a timeout without callback ends the response without sending headers, and a later `end` is ignored |
| MockResponse.TimeoutWithCallback | lib/response.js:154-161 | a timeout with callback leaves the response open, and a later `end` still sends headers and raises 'end' |
| MockResponse.WriteThenEnd | lib/response.js:113-123 | writing a string and then ending with it leaves its UTF-8 bytes twice in the body |
| MockResponse.EndAgain | lib/response.js:98-118 | a second `end` takes no data in and changes only the date and the 'end' count; after a timeout it is ignored |
| MockResponse.DateKeyAsWritten | lib/response.js:103-105 | `getHeader('date')` does not see the date `end` stores |
| MockResponse.DateListedLowerCased | lib/response.js:177-184 | `getHeaders()` lists the stored date under `date` |
| MockResponse.WriteHeadOverload | lib/response.js:136-139 | an object in the phrase slot is the same call as that object passed as headers with no phrase |
| MockResponse.Response.constructor | lib/response.js:52-68 | a new response has sent nothing, holds no headers, body or timer, has no status code and has the date on, and `Valid` holds |
| MockResponse.Response.SetHeader | lib/response.js:164-171 | throws and changes nothing after the headers are sent; otherwise it assigns both maps; the new state is the one `SetHeaderStep` gives |
| MockResponse.Response.RemoveHeader | lib/response.js:194-203 | moves the state as `RemoveHeaderStep` says |
| MockResponse.Response.HeaderNames | lib/response.js:72-83 | the getter's loop builds exactly `NamesOf` of the raw names |
| MockResponse.Response.Write | lib/response.js:121-124 | moves the state as `WriteStep` says |
| MockResponse.Response.EndWritable | lib/response.js:113-115 | the body takes the last data unless already ended, and the writable side ends; no other field changes |
| MockResponse.Response.StampDate | lib/response.js:103-105 | the date goes in when `sendDate` is on; no other field changes |
| MockResponse.Response.SendStatus | lib/response.js:107-109 | the final status code, its phrase or `''` and headers sent; no other field changes |
| MockResponse.Response.EndOnce | lib/response.js:103-117 | `end` on a response that has not both timed out and ended gives the new state `EndStep` describes |
| MockResponse.Response.Finish | lib/response.js:103-110 | the date, the ended flag, the status line and the cleared timer, and no other field changes |
| MockResponse.Response.End | lib/response.js:98-118 | the new state is the one `EndStep` gives, stated also field by field; nothing changes after a timeout that ended the response |
| MockResponse.Response.WriteContinue | lib/response.js:128-132 | moves the state as `WriteContinueStep` says |
| MockResponse.Response.WriteHead | lib/response.js:134-149 | throws before setting the status once headers are sent; otherwise installs the headers as `SetAll` and sets code, phrase and sent flag; the new state and the outcome are the ones `WriteHeadStep` gives |
| MockResponse.Response.KeepReason | lib/response.js:140-142 | a truthy phrase is kept, as `KeepPhrase` says, and nothing else changes |
| MockResponse.Response.SendHeaders | lib/response.js:143-148 | the header loop and then the status line, as `HeadersStep` gives them: a throw leaves the state as it was |
| MockResponse.Response.SendHead | lib/response.js:146-148 | the status code, its phrase from the table and the sent flag, and nothing else |
| MockResponse.Response.SetHeaders | lib/response.js:143-145 | the `setHeader` loop throws at the first header once they are sent, and otherwise installs all of them as `SetAll` says; no other field changes |
| MockResponse.Response.SetTimeout | lib/response.js:151-162 | moves the state as `SetTimeoutStep` says |
| MockResponse.Response.FireTimeout | lib/response.js:154-161 | moves the state as `FireStep` says and reports whether the callback runs |
| MockResponse.Response.AddTrailers | lib/response.js:205-211 | moves the state as `AddTrailersStep` says |

## Left out

- The stream machinery of Node (`Readable`, `Writable`, `highWaterMark`, the `'finish'` event,
  `isStream1` and the order of `'end'` relative to the last write) is not modelled. `end`
  counts its 'end' events, and the writable side's ending is the flag `sinkEnded`.
- The `onEnd` and `onFinish` callbacks of the response options are not modelled, because they
  only forward events.
- Real timers and the wall clock are not modelled. A timer running out is the `FireTimeout`
  call, and the date string is the parameter `now`.
- `mergee.pick` is replaced by the optional fields of `Options`. `index.js` and `index.d.ts`
  only re-export and type the classes.
- The dummy `socket` and `connection` objects of the response, and the request's no-op
  `flushHeaders`, `setNoDelay` and `setSocketKeepAlive`, are not modelled, as they hold no
  behaviour. `socket.localAddress` and `localPort` are not modelled either, as they copy the
  connection fields.
- MockResponse.WriteStep / Taken / EndStep, and with them `Response.Write`,
  `Response.EndWritable`, `Response.EndOnce`, `Response.End` and `WriteThenEnd`: a string
  chunk is appended as its UTF-8 bytes whatever `encoding` is given. Node's Writable (with the
  default `decodeStrings`) converts it with that encoding before `_write` sees it, so
  `write('aGk=', 'base64')` appends the two bytes of "hi" in the source and four bytes here.
  Only the default and `'utf8'` agree with the source.
- Encodings other than UTF-8 are not modelled. `getBuffer` decodes the body and is left out.
  `hasEnded` and `hasTimedout` are the fields `ended` and `timedout`.
- MockRequest.Request.SetBuffer: takes a string only, because a `Buffer` argument is decoded
  and re-encoded with an encoding the model does not have.
- Text.Lower: lower-cases ASCII letters only, not the rest of Unicode.
- Text.ParseInt: the value is an exact unbounded integer, so `parseInt('-0')` gives 0 rather
  than `-0`, and numerals beyond 2^53 are not rounded to the nearest double.
- Js.JsValue: numbers are integers. `NaN` (which is falsy), fractions and `-0` cannot be
  represented, so `setTimeout(NaN)`, a `NaN` header value under `removeHeader`'s truthiness
  test, or a `NaN` target value under `assign`'s `!target[i]` are not modelled. The
  `setTimeout` methods take `msecs` as an integer, so a call without `msecs` (`undefined`,
  which is falsy like 0) is not modelled either.
- MockRequest.Request.constructor: the source writes the checked `rawHeaders` (or `undefined`)
  and the defaulted `headers` back onto the caller's `options` object; that change to the
  caller's object is not modelled, as the options are taken as a value.
- MockRequest.Request.SetHeader: a header named `__proto__`, which in the source sets the
  header object's prototype (or is ignored, for a value that is not an object) instead of
  adding a property, is stored like any other name; the raw list does get the pair.
- JavaScript's ordering of integer-like property names before other names is not modelled.
  Every object keeps insertion order.
- Pluck.Pluck: properties inherited through the prototype chain are not seen. A falsy
  non-string `props` (`0`, `false`) is not modelled; only a missing one (`None`) is.
- MockResponse.GetHeader: reads own properties only. In the source the header store is a
  plain object, so a name such as `constructor` or `toString` finds the inherited member of
  `Object.prototype`, not `undefined`; the prototype chain is not modelled.
- MockResponse.HasHeader: for the same reason it is false for `constructor`, `toString` and
  the other inherited names, for which the source answers true.
- MockResponse.RemoveHeaderStep: tests own properties only. An inherited truthy member passes
  the source's test, but `delete` of a property that is not own changes nothing, so the
  outcome is the same.
- MockResponse.SetHeaderStep: a header named `__proto__`, which in the source sets the store's
  prototype (or is ignored, for a value that is not an object) instead of adding a property,
  is stored like any other name.
- MockRequest.Request.GetHeader: reads own properties only, so the inherited members of the
  header object (`constructor` and the like) are not found as they are in the source.
- Assign.Assign: `!target[i]` reads own properties only, so an inherited truthy member of the
  target (such as `constructor`) does not stop an assignment when overwriting is off, as it
  does in the source. `for...in` in the source also visits the inherited enumerable
  properties of each source; only own properties are copied here.
- Assign.Assign: takes the sources as values, so a source that is the target itself (aliasing)
  is not modelled. Non-object sources are not modelled either.
- MockRequest.Request.constructor: requires a string in every name slot of a usable
  `rawHeaders` array, where the source would throw on `toLowerCase`.
- MockResponse.Resolve: arrays and other object references in the phrase slot are treated as
  having no enumerable properties.
- MockResponse.Response.Write: requires data, because Node's `write(undefined)` throws before
  `_write` runs. A write after the writable side ended is modelled as a refusal that changes
  nothing, not as Node's error event.
- MockRequest.Request.Read: requires a positive `size`, and so does `MockRequest.Pull`.
  With a `highWaterMark` of 0 the source's loop pushes an empty chunk on every turn and never
  shortens the buffer, so it only stops at an already reached `emitClose` threshold or at a
  refused push, and can go on without end; the model does not represent a loop that makes no
  progress.
- MockRequest.Request.Read: runs its loop on local copies and assigns the fields at the end,
  so the intermediate field values during a push are not modelled. A consumer that reads
  again from inside `push` is not modelled.
- MockRequest.KeepOthers: builds the new raw list in a local sequence, not by pushing onto the
  field.
