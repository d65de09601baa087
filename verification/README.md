# A verified model of the gNMI telemetry client

The client subscribes to PBR (policy-based routing) counters over gNMI. This project models its three
hard parts in Dafny and proves what they promise, for every input and every interleaving:

- **The stream lifecycle.** `rpc_register_stats_stream`, its receive thread and `rpc_stream_close` are a
  transition system (`stream_protocol.dfy`): one step is one action of the calling thread or of the
  receive thread on the mutex, the thread handle, the stream handle, the context and the statistics.
  `stream_invariants.dfy` holds what every step keeps, `stream_laws.dfy`, `stream_traces.dfy`,
  `stream_stats.dfy`, `stream_close.dfy` and `stream_calls.dfy` what follows for every reachable state and every run,
  `stream_runs.dfy` and `stream_late_write.dfy` which runs there are.
  The blocking `rpc_register_stats_once` is a method over a stream object (`once_client.dfy`).
- **The path codec.** The printer and the index-driven parser of gNMI paths (`path_codec.dfy`) are methods
  proved against a printer and a split-based parser on values; `path_laws.dfy` relates the two.
- **The decoding pipeline.** From a `SubscribeResponse` to a `PbrBasicStat` record (`decoder.dfy`, `pbr.dfy`),
  and from keys to the subscribe request (`requests.dfy`), with the laws in the files that end in `_laws.dfy`.

The methods follow the source's loops and assignments; each one's postcondition ties its result to a function
on values, and the lemmas are about those functions. `Reachable(s, base)` says that some sequence of allowed
steps leads from a new client, whose counter already holds the records `base`, to the state `s`.

What the stream model takes for granted: one thread calls the client; both handlers are set, return, and do not
call back; the ONCE call is not used while a receive thread is running; `Subscribe` returns a stream; the counter
interface stays alive. Which response a Read returns, whether a Write succeeds, which status Finish gives, how many
responses are still buffered when a context is cancelled, and the interleaving are all arbitrary.

Where code and comments disagree, the model follows the code:

- The comment at `mgbl_api/src/mgbl_api.cpp:668-671` says that no write follows a finished stream. The null check
  below it never fails, because nothing resets the context: `StreamLateWrite.LateWriteHappens` gives the run and
  `StreamLaws.WriteAfterFinish` says exactly when it happens.
- For the same reason `RPC_FAILURE` is never returned from the STREAM call (`StreamLaws.ResultOfCall`).
- The comment at `mgbl_api/src/mgbl_api.cpp:136` calls PROTO the default encoding; the branch is only reached with
  an encoding that the caller chose, and an unsupported one leaves the field unset.
- A path element keeps at most one key when it is parsed, and a value with a slash is cut by it, although the gNMI
  specification (section 2.2.2) allows several keys and escaped characters.

## Model

| member | source | states |
|---|---|---|
| StreamLaws.Exclusion | mgbl_api/src/mgbl_api.cpp:640-675 | in every reachable state, a caller that is writing or cancelling excludes a receive thread inside its WritesDone/Finish section, and no step ever dereferences an empty handle or assigns over a joinable thread |
| StreamLaws.WritesAreSerialized | mgbl_api/src/mgbl_api.cpp:667-675 | at a Write, the stream either carries no WritesDone, Finish or failure call at all, or has ended in order; the second exactly when the receive thread has exited |
| StreamLaws.ClosedStreamsHaveEnded | mgbl_api/src/mgbl_api.cpp:640-644 | once close has joined the thread, every stream ever opened has had its last Read, then WritesDone, then Finish, each exactly once and in this order |
| StreamTraces.CompleteEndsInOrder | mgbl_api/src/mgbl_api.cpp:614-655 | the events of a stream whose thread has ended: all reads and success calls first, then end of reads, WritesDone, Finish, and a failure call exactly for a status that is neither OK nor CANCELLED |
| StreamLaws.HandlersCalled | mgbl_api/src/mgbl_api.cpp:614-655 | on every stream, at every moment, the success calls match the accepted responses one to one, in order, each finding the very record that check_response accepted stored last; at most one failure call follows, if and only if the final status code is neither 0 (OK) nor 1 (CANCELLED) |
| StreamTraces.TraceCalls | mgbl_api/src/mgbl_api.cpp:614-638 | the handler calls of a receive loop are the accepted records of the responses it read, in order |
| StreamTraces.FullTraceCalls | mgbl_api/src/mgbl_api.cpp:643-665 | the same for a finished stream, with the failure call decided by the status |
| StreamLaws.HandlesAreNotRaced | mgbl_api/src/mgbl_api.cpp:588-609 | the stream handle, the context and the thread handle are assigned only while there is no receive thread |
| StreamLaws.HandleIffThread | mgbl_api/src/mgbl_api.cpp:439-454 | between calls the thread is joinable exactly when the stream handle is held, and then the stream was opened on the current context |
| StreamLaws.ContextIsKept | mgbl_api/src/mgbl_api.cpp:588-603 | while a stream handle is held no step replaces its context or changes the context's credentials and deadline, and only the reset at the end of a close drops the handle |
| StreamLaws.RequestOfCall | mgbl_api/src/mgbl_api.cpp:571-585 | a call with a counter of another type returns CLIENT_TYPE_FAILURE and changes nothing else; any other call registers a STREAM request with its arguments, which has one subscription per key, sampled at the asked interval, on the path of that key (`RequestLaws.PathOfKey`), if the encoding is supported, and none if it is not |
| StreamLaws.RefusedCallsAddNothing | mgbl_api/src/mgbl_api.cpp:571-579 | over whole runs: as long as every call has a counter of another type, no interleaving with closes, ONCE calls and the receive thread registers a call, opens a stream or writes |
| StreamLaws.EveryCallWrites | mgbl_api/src/mgbl_api.cpp:672-687 | every call of rpc_register_stats_stream that got past the type check has written its own request once, in call order |
| StreamLaws.WritesOfAnEpoch | mgbl_api/src/mgbl_api.cpp:588-675 | two writes go to the same stream if and only if no close lies between their calls |
| StreamLaws.WritesUseFirstCredentials | mgbl_api/src/mgbl_api.cpp:592-603 | the stream of every write was opened with the credentials and deadline of the first call since the last close |
| StreamLaws.WriteAfterFinish | mgbl_api/src/mgbl_api.cpp:668-675 | a Write always finds its handles, and it comes after Finish if and only if the receive thread has already exited |
| StreamLateWrite.LateWriteHappens | mgbl_api/src/mgbl_api.cpp:668-675 | for every first call, every final status and every result of the write there is a run in which the call writes its own request, on the stream opened with its own credentials, behind the Finish that returned that status |
| StreamLaws.ResultOfCall | mgbl_api/src/mgbl_api.cpp:673-695 | on its way out the STREAM call carries success exactly when its write succeeded, and the branch that reports RPC_FAILURE is unreachable |
| StreamCalls.RegisterReturns | mgbl_api/src/mgbl_api.cpp:563-695 | over whole runs: when the STREAM call returns, its own request, asking for all keys, is the one new write, the call has returned success or WRITES_FAILED as that write succeeded or failed, and there is a receive thread |
| StreamCalls.CloseReturns | mgbl_api/src/mgbl_api.cpp:437-456 | over whole runs: when close returns it has returned SUCCESS, there is no receive thread and no stream handle, every stream has ended in order, and nothing was opened or written |
| StreamCalls.CallsAdvance | mgbl_api/src/mgbl_api.cpp:437-695 | every action of the caller brings its call nearer to its return, and the receive thread does not set it back |
| StreamCalls.IdleTakesCalls | mgbl_api/src/mgbl_api.cpp:437-695 | between calls, close and the STREAM call can always be made, with any arguments |
| StreamCalls.OnceCallStores | mgbl_api/src/mgbl_api.cpp:526-534 | between calls and without a running thread a ONCE call adds to the statistics what its read loop stores, and changes nothing else |
| StreamRuns.EveryStreamHappens | mgbl_api/src/mgbl_api.cpp:609-665 | for all responses whose counters parse, and every final status, there is a run whose stream reads exactly these and ends with that status |
| StreamRuns.ThrowingResponseEscapes | mgbl_api/src/mgbl_api.cpp:623-629 | a response whose counters do not parse ends the process before anything is stored |
| StreamClose.LockHolderNeverWaits | mgbl_api/src/mgbl_api.cpp:441-449 | a thread that holds the mutex always has a step of its own that waits neither for the other thread nor for the server; in particular the caller never joins while holding it |
| StreamClose.CancelMarksStream | mgbl_api/src/mgbl_api.cpp:442-445 | TryCancel cancels the context of the current stream, and no other, and leaves what is buffered to be read |
| StreamClose.ReadsWhileClosing | mgbl_api/src/mgbl_api.cpp:614 | after that a read returns a response exactly while something is buffered, and uses up one |
| StreamClose.NoDeadlock | mgbl_api/src/mgbl_api.cpp:437-456 | in every reachable state inside a call some step is possible; when the caller cannot step, the receive thread holds the mutex or is being joined |
| StreamClose.ClosingProgress | mgbl_api/src/mgbl_api.cpp:442-449 | after TryCancel every possible step of either thread makes a natural-number measure smaller, until the join is done or an exception ended the process; and there always is such a step |
| StreamClose.CloseEnds | mgbl_api/src/mgbl_api.cpp:442-449 | every run from there that is as long as the measure contains the completed join (or the exception) |
| StreamStats.StatsOfRun | mgbl_api/src/mgbl_api.cpp:526-534 | in every run the statistics are what was there before followed by the records that check_response accepted, each unchanged, once and in order of arrival; no response that arrived threw |
| StreamStats.StreamsLikeOnce | mgbl_api/src/mgbl_api.cpp:614-638 | from a state without a stream, any calls and interleaving leave the statistics that one ONCE call reading the same responses would leave |
| StreamInvariants.InvKept | mgbl_api/src/mgbl_api.cpp:563-696 | every enabled step of either thread keeps the whole invariant: mutex ownership, handles, cancellation, statistics, stream events, calls and writes, results |
| OnceClient.RpcRegisterStatsOnce | mgbl_api/src/mgbl_api.cpp:464-555 | the guards; the stream opened with the credentials and deadline; one request, in ONCE mode, for all keys; every response read until the end or until a counter fails to parse; exactly the accepted records appended, unchanged; WritesDone then Finish; and the error code of the final status |
| OnceClient.ReadAll | mgbl_api/src/mgbl_api.cpp:526-534 | the read loop appends the records that check_response accepted, unchanged, once each and in order, and stops at the first response whose counters do not parse |
| Records.FirstThrowIsFirst | mgbl_api/src/mgbl_api.cpp:526-534 | the stopping place is the first response for which check_response throws, or the end |
| Records.AcceptedRecordsStored | mgbl_api/src/mgbl_api.cpp:526-533 | the stored records are those of the accepted responses, at strictly increasing places that leave none out |
| Records.StoredOnce | mgbl_api/src/mgbl_api.cpp:526-533 | the responses leave no other choice of what is stored |
| PathCodec.GnmiPathToString | mgbl_api/src/gnmi/mgbl_gnmi_helper.cpp:34-50 | prints each element behind a slash, its pairs in brackets in iteration order |
| PathCodec.StringToGnmiPath | mgbl_api/src/gnmi/mgbl_gnmi_helper.cpp:60-134 | the index loop terminates, never cuts out of range, and refines: drop one leading slash, split on slashes, drop a final empty piece, parse every piece on its own |
| PathCodec.ParseElement | mgbl_api/src/gnmi/mgbl_gnmi_helper.cpp:73-124 | one pass of the loop, cut with unsigned lengths that wrap around when the brackets are reversed |
| PathCodec.CutBetweenBrackets | mgbl_api/src/gnmi/mgbl_gnmi_helper.cpp:101 | the wrapped length takes the rest of the element exactly when the first closing bracket precedes the first opening one |
| PathLaws.ParsePiecesElementwise | mgbl_api/src/gnmi/mgbl_gnmi_helper.cpp:71-132 | parsing succeeds if and only if every piece is valid, yields one element per piece in order, and otherwise reports the first invalid piece |
| PathLaws.RefusedPiece | mgbl_api/src/gnmi/mgbl_gnmi_helper.cpp:75-111 | when a piece is refused and for which of the four reasons, in terms of its characters |
| PathLaws.RoundTrip | mgbl_api/src/gnmi/mgbl_gnmi_helper.cpp:34-134 | parsing a printed path gives the path back if and only if it has no origin, no element prints a slash, each has a non-empty name without an opening bracket and at most one key, and a keyed one has no closing bracket in its name, a non-empty key without '=' or closing bracket, and a non-empty value without closing bracket |
| PathLaws.ReparseKeepsFirstPairs | mgbl_api/src/gnmi/mgbl_gnmi_helper.cpp:43-47 | with any number of keys in any printing order, parsing back keeps all elements and exactly the first printed pair of each, if and only if names and first pairs are well formed and no slash is printed |
| PathLaws.ReparsedKeysAreSubmap | mgbl_api/src/gnmi/mgbl_gnmi_helper.cpp:43-47 | whatever pair is kept is one of the element's own |
| PathLaws.PrintGivesNormalForm | mgbl_api/src/gnmi/mgbl_gnmi_helper.cpp:80-124 | printing the path of an accepted string gives its normal form: one slash before each piece, none at the end, nothing after the first closing bracket |
| PathLaws.ParsingNormalizes | mgbl_api/src/gnmi/mgbl_gnmi_helper.cpp:80-124 | for every accepted string, printing and parsing again gives the same path if and only if no piece has its first closing bracket before its first opening one |
| PathLaws.SamePathSameNormalForm | mgbl_api/src/gnmi/mgbl_gnmi_helper.cpp:60-134 | two accepted strings, reversed brackets included, denote the same path exactly when their normal forms agree |
| PathLaws.ReversedBracketsDoNotNormalize | mgbl_api/src/gnmi/mgbl_gnmi_helper.cpp:101 | a concrete accepted string with reversed brackets whose path changes when it is printed and parsed |
| Decoder.GnmiDecodeJsonIetf | mgbl_api/src/mgbl_api.cpp:221-256 | inserts the flattened, rewritten document under keys not yet present; a document that does not parse changes nothing |
| Decoder.GnmiDecodeProto | mgbl_api/src/mgbl_api.cpp:263-292 | overwrites the entry at the printed path with the text of the value, and nothing else |
| Decoder.RewriteEntries | mgbl_api/src/mgbl_api.cpp:228-254 | the per-document map: rewritten keys, strings as they are, other primitives dumped, a later entry winning |
| Decoder.GnmiParseResponse | mgbl_api/src/mgbl_api.cpp:300-419 | the whole decision, in the source's order of checks |
| DecoderLaws.DecodedValue | mgbl_api/src/mgbl_api.cpp:336-376 | for any list of mixed updates, the value at a key is that of the last PROTO update rendering to it if there is one, otherwise that of the first parsed JSON document containing it, otherwise the key is absent |
| DecoderLaws.ProtoTexts | mgbl_api/src/mgbl_api.cpp:270-291 | the text a PROTO value of each kind leaves at its key: canonical decimal numerals, strings, truth values, and the mark of an unsupported kind |
| DecoderLaws.JsonTexts | mgbl_api/src/mgbl_api.cpp:245-253 | the text a JSON primitive of each kind leaves at its key |
| DecoderLaws.MalformedJsonChangesNothing | mgbl_api/src/mgbl_api.cpp:349-364 | a JSON update that does not parse leaves the decoded map as it would be without the update
| DecoderLaws.MalformedJsonStillNames | mgbl_api/src/mgbl_api.cpp:345-348 | such an update still decides the naming path, exactly when it has a path and no later update has path and value
| DecoderLaws.MalformedJsonLeftOut | mgbl_api/src/mgbl_api.cpp:343-380 | if a later update has path and value, leaving the malformed one out changes nothing in the whole decision |
| DecoderLaws.DecodedEntry | mgbl_api/src/mgbl_api.cpp:228-254 | inside one document the last entry that is rewritten to a key decides it |
| DecoderLaws.DecodedKeys | mgbl_api/src/mgbl_api.cpp:263-292 | every decoded key is empty or starts with a slash, so data cannot pose as a name |
| DecoderLaws.ChosenPathIsLast | mgbl_api/src/mgbl_api.cpp:343-380 | the naming path is that of the last update with path and value if it is JSON, and the prefix otherwise |
| DecoderLaws.ScannedNames | mgbl_api/src/mgbl_api.cpp:382-402 | the scan finds the last policy and rule on the path and leaves all other keys alone |
| DecoderLaws.AcceptedNotification | mgbl_api/src/mgbl_api.cpp:312-418 | accepted if and only if the prefix is there with the right origin, there is an update, and both names are found non-empty; the result is the decoded data plus those two names |
| DecoderLaws.RefusedNotification | mgbl_api/src/mgbl_api.cpp:312-416 | each error code is returned exactly under its own condition |
| Text.ContainsMeans | mgbl_api/src/mgbl_api.cpp:317 | the origin test holds exactly when the origin is something, the expected text, and something |
| JsonFlatten.FlattenedPointers | mgbl_api/src/mgbl_api.cpp:229-232 | every flattened key is empty or starts with a slash (section 3 of RFC 6901) |
| PointerLaws.EscapeRoundTrip | mgbl_api/src/mgbl_api.cpp:229-232 | an escaped reference token has no slash and stands for the member name (section 4 of RFC 6901) |
| PointerLaws.LeavesResolve | mgbl_api/src/mgbl_api.cpp:229-232 | the entries of a document are exactly the JSON pointers that resolve to a primitive, with that primitive |
| PointerLaws.FlattenKeepsLast | mgbl_api/src/mgbl_api.cpp:229-230 | the flattened object keeps, for every pointer, the last entry that has it |
| PointerLaws.LessMeans | mgbl_api/src/mgbl_api.cpp:230 | the order of the object is that of strings: by the first character that differs |
| JsonFlatten.FlattenSorted | mgbl_api/src/mgbl_api.cpp:229-230 | the entries of every flattened document are strictly ordered by pointer, the order in which the loop visits them |
| JsonFlatten.AssignSorted | mgbl_api/src/mgbl_api.cpp:229-230 | one assignment keeps that order |
| PointerRewrite.RewriteHalvesZeroRuns | mgbl_api/src/mgbl_api.cpp:235-239 | the single pass turns each maximal run of k non-final "0" segments into k/2 of them and keeps every other segment in order |
| PointerRewrite.HalveRunsKeepsTheRest | mgbl_api/src/mgbl_api.cpp:235-239 | no segment other than "0" is lost, added, changed or moved |
| PointerRewrite.HalveRunsKeepsLast | mgbl_api/src/mgbl_api.cpp:235-239 | the last segment stays, even when it is "0" |
| PointerRewrite.IsolatedZeroDropped | mgbl_api/src/mgbl_api.cpp:235-239 | an interior "0" without a neighbouring "0" disappears |
| Pbr.UnorderedMapToStats | mgbl_api/src/pbr/mgbl_pbr.cpp:38-89 | fills the record from the keys that are present, or reports the first counter that does not parse |
| Pbr.CheckResponse | mgbl_api/src/mgbl_api.cpp:179-212 | a record, an error code, or the exception of std::stoull |
| OutcomeLaws.NoNotification | mgbl_api/src/mgbl_api.cpp:194-210 | NO_NOTIFICATION is reported exactly for a response without an update |
| OutcomeLaws.RejectedUpdate | mgbl_api/src/mgbl_api.cpp:199-202 | an update is rejected exactly when prefix, origin, updates or a name are missing, with the code of what is missing first |
| OutcomeLaws.AcceptedUpdate | mgbl_api/src/mgbl_api.cpp:198-204 | an update is accepted exactly when nothing is missing and all counters parse; the record has the names of the naming path, every counter at its parsed value or zero, and both texts |
| OutcomeLaws.ThrowingUpdate | mgbl_api/src/pbr/mgbl_pbr.cpp:54-76 | otherwise parsing throws, and the exception is that of the first counter, in the order of parsing, that does not parse |
| Pbr.PBRBasic.AddStats | mgbl_api/include/pbr/mgbl_pbr.h:84-91 | appends a copy of the record |
| Pbr.PBRBasic.GetGnmiPaths | mgbl_api/src/pbr/mgbl_pbr.cpp:91-103 | one request path per key, in order |
| Decimal.UnsignedRoundTrip | mgbl_api/src/pbr/mgbl_pbr.cpp:54-76 | for every 64-bit unsigned n, parsing its decimal text yields n |
| Decimal.SignedRoundTrip | mgbl_api/src/pbr/mgbl_pbr.cpp:54-76 | for every signed 64-bit v, parsing its decimal text yields v modulo 2^64 |
| Decimal.StoullOfNumber | mgbl_api/src/pbr/mgbl_pbr.cpp:57 | std::stoull of spaces, a sign, digits and anything else: out of range exactly from 2^64 on, otherwise the value, negated modulo 2^64 behind a minus sign |
| Decimal.InvalidArguments | mgbl_api/src/pbr/mgbl_pbr.cpp:57 | a text is an invalid argument exactly when it is not of that form |
| Decimal.NatTextIsNumeral | mgbl_api/src/mgbl_api.cpp:273 | a number is rendered as its decimal numeral without leading zeros |
| CounterLaws.UnsignedCounterSurvives | mgbl_api/src/mgbl_api.cpp:272-274 | an unsigned value sent last for any of the four counters is the value of the counter's field |
| CounterLaws.SignedCounterSurvives | mgbl_api/src/mgbl_api.cpp:275-277 | a signed value arrives modulo 2^64 |
| CounterLaws.FractionIsCut | mgbl_api/src/mgbl_api.cpp:284-286 | a fractional value counts as its integer digits |
| CounterLaws.UnsupportedCounterThrows | mgbl_api/src/mgbl_api.cpp:288-290 | a counter last sent as an unsupported kind or a truth value makes an acceptable notification throw, as an invalid argument if the counters before it parse |
| CounterLaws.NullCounterThrows | mgbl_api/src/mgbl_api.cpp:250-253 | and so does a counter that is null in the first JSON document with it |
| ListLaws.TailOfListIsIgnored | mgbl_api/src/pbr/mgbl_pbr.cpp:78-87 | two notifications whose JSON documents differ only in the elements at index 1 and above of policy-rule-action have the same outcome, whatever surrounds the list and the update |
| EncodingLaws.EncodingsAgree | mgbl_api/src/pbr/mgbl_pbr.cpp:38-89 | the same leaves, sent as PROTO updates under a naming prefix or as one JSON document under a naming path, give the same record, which holds exactly those leaves |
| EncodingLaws.LeafPathText | mgbl_api/src/gnmi/mgbl_gnmi_helper.cpp:34-50 | the path elements of a leaf print to the key that the record looks up |
| DocumentLaws.DocumentHoldsLeaves | mgbl_api/src/mgbl_api.cpp:226-254 | the document made from any non-empty choice of the six leaves, counters as numbers or as strings (section 6.1 of RFC 7951) and no empty object, flattens to exactly these leaves
| DocumentLaws.EncodingsOfLeavesAgree | mgbl_api/src/pbr/mgbl_pbr.cpp:38-89 | end to end, for any non-empty choice of leaves in any order: one plain-path PROTO update per leaf under a naming prefix, and that document under a naming path, are both accepted with the record of exactly these leaves |
| Requests.SubscribeRequestHelper | mgbl_api/src/mgbl_api.cpp:124-170 | SUCCESS exactly for JSON_IETF and PROTO; the request is the one described by `RequestLaws.RequestAsksForKeys`, with an empty path where parsing fails |
| RequestLaws.RequestAsksForKeys | mgbl_api/src/mgbl_api.cpp:128-169 | a request has the asked mode; with JSON_IETF or PROTO it has that encoding and one subscription per key, sampled at the asked interval, on the path of the key; with any other encoding it has neither |
| RequestLaws.RequestPathNamesKey | mgbl_api/src/pbr/mgbl_pbr.cpp:91-103 | the request path of a key parses to the five-element path naming it if and only if policy and rule are non-empty and free of slashes and closing brackets |
| RequestLaws.SubscriptionOfKey | mgbl_api/src/mgbl_api.cpp:146-168 | with a supported encoding the i-th subscription holds the path of the i-th key, whatever the key; for keys without closing brackets that is the path naming the key when policy and rule are non-empty and slash-free, and the empty path otherwise
| RequestLaws.RequestPathOfKey | mgbl_api/src/gnmi/mgbl_gnmi_helper.cpp:71-132 | for every key: its request path is valid if and only if no name has a slash before its first closing bracket, the part up to that bracket is non-empty, and the pieces a name spills behind its first slash all parse; the path then holds the shortened names, each followed by the elements of its spilled pieces
| RequestLaws.CutKeyFails | mgbl_api/src/gnmi/mgbl_gnmi_helper.cpp:85-90 | a slash before any closing bracket of a name makes the request path invalid
| RequestLaws.SpilledKey | mgbl_api/src/gnmi/mgbl_gnmi_helper.cpp:71-124 | a policy with a closing bracket before a slash is silently subscribed to under its shortened name, with a sixth element made from the rest |
| RequestLaws.SlashFreeKey | mgbl_api/src/mgbl_api.cpp:154-167 | slash-free names are shortened at their first closing bracket; if nothing is left of one, the path is empty
| RequestLaws.BracketedKeySharesPath | mgbl_api/src/gnmi/mgbl_gnmi_helper.cpp:85-101 | so a key with a closing bracket shares its path with the key that is cut there |
| RequestLaws.DistinctKeysDistinctPaths | mgbl_api/src/pbr/mgbl_pbr.cpp:91-103 | two keys without closing brackets share a path if and only if they are equal or neither can be written in a path; in particular distinct non-empty slash-free ones have distinct paths |
| RequestLaws.RequestKeyComesBack | mgbl_api/src/mgbl_api.cpp:382-418 | for every key that is subscribed to: a response whose naming path holds the subscribed elements behind the module element, with anything in front of them and nothing behind them that names again, is never refused; it is accepted exactly when its counters parse, parsing them throws otherwise, its record carries the names that the scan finds on the subscribed elements, and they are the requested ones if and only if neither has a closing bracket
| RequestLaws.AskedNames | mgbl_api/src/mgbl_api.cpp:382-402 | those names are never empty; they are the requested ones cut at their first closing bracket unless a spilled piece names again, and equal the requested ones if and only if neither has a closing bracket
| RequestLaws.NameableKeyComesBack | mgbl_api/src/mgbl_api.cpp:382-418 | in particular a key with non-empty names free of slashes and closing brackets comes back unchanged, whether the path starts with the module-qualified element or with a plain one |

## Left out

- gRPC channels, TLS, certificate files and waiting for a connection: I/O and foreign calls.
- The wire formats and internals of protobuf, nlohmann::json and std::regex: messages are values, a JSON text either does not parse or denotes a document, the regular expression is a left-to-right replacement.
- Logging, print_subscribe_request and console output: no effect on the modelled state.
- get_counter_gnmi_paths: a cast around get_gnmi_paths.
- The digits of floating-point values: they are carried as text.
- The stream client is modelled on values, not as a class with fields: two threads change it at once, so each action is a function from state to state; sharing of the context and stream objects through pointers appears as indices.
- Calls of the client from several threads, handlers that call back into the client, and unset handlers (an empty std::function throws, although the header says that nothing happens).
- The counter interface being released while a stream is open: the receive loop then drops responses.
- The client's destructor: it is a last rpc_stream_close.
- Records.AcceptedRecords counts a response whose counters do not parse as no record; in the receive thread the exception ends the process, which is the status Escaped, and no later state is described.
- StreamClose.CloseEnds: that Read returns after TryCancel once its buffer is used up, and that WritesDone and Finish return, is assumed of gRPC; blocking inside the library is not modelled.
- PathCodec.StringToGnmiPath: asks that the string is shorter than npos, which every std::string is.
- Decoder.GnmiDecodeJsonIetf: a dump that fails on invalid UTF-8 text counts as a document that does not parse; both leave the map unchanged.
