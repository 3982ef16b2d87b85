# Verification of the MinoStack core

A Dafny model of the algorithms, protocols and caches in MinoStack that carry its promises, with proofs that hold for
every input, every run or every graph. Dafny 4.11 checks it with `dafny verify dfyconfig.toml`.

The code works by changing things step by step, so the model does too: scanners, parsers, tries, caches and breakers are
classes whose methods are proved against specification functions, and what the code promises is proved about those
functions as lemmas. Code that is recursion over values stays functions.

* **Multipart** (`MultipartSpec`, `MultipartScanner`, `MultipartParts`, `MultipartLaws`, `MultipartLimits`,
  `MultipartText`). The specification reads a whole buffer; the scanner reads chunks, keeps a tail and yields body
  chunks from a generator object. For every chunking, empty chunks included, the scanner delivers the parts of the
  specification. The limits refuse a message exactly when its sections do not fit them, and a printed message is read
  back exactly when no body holds a complete delimiter. Two facts came out of the proof. The status of a message that
  fails inside a body, 400 or 413, can depend on the chunking: all chunkings end alike if and only if the specified end
  is not `ByChunking`, and then one chunk gives 400 and single bytes give 413. And preamble skipping finds the first
  valid delimiter on every input exactly when the boundary does not overlap itself in a certain way; the boundary `-` is
  a counterexample.
* **Byte ranges** (`Ranges`, `RangeText`, `Byteranges`). `parseRangeList` is proved against what a range header asks
  for, byte by byte, and every printed header is read back as the ranges it was printed from. The `multipart/byteranges`
  body that the static file handler prints is read back by the multipart scanner as exactly the slices if and only if no
  slice holds a complete delimiter. For a file of zero bytes a suffix range gives the range from 0 to -1.
* **Router** (`TrieSpec`, `RouteTable`, `RouteLaws`, `FastLaws`, `ParamObjects`, `PathLaws`, `Objects`, `Router`). A
  heap of trie nodes, tied to a trie value by a ghost map. A trailing slash makes a difference only in a strict router.
  Backtracking finds the best matching pattern in the order static, param, wildcard. The bindings live in a plain
  object, so names that every object inherits get in their way: the bindings are exact on all tables, paths and options
  if and only if no param name is inherited. The static fast map agrees with the trie for patterns without `?` and `#`;
  otherwise an entry is stale exactly when its pattern was registered again under another key.
* **WebSocket** (`WebSocketSpec`, `WebSocketWire`, `WebSocketLaws`, `WebSocket`). Encoder, incremental parser and
  reassembly, with the octets of every frame in their places. Any partition of a byte stream into pushes delivers the
  same up to the first violation, and legal messages come back in order of completion. A push after a violation runs the
  kept bytes again, which can deliver messages a second time.
* **PASETO** (`Base64Url`, `Paseto`, `PasetoLaws`, `PasetoBinding`). base64url with its 32-bit accumulator, PAE, the
  BLAKE2b block loop, XChaCha20 and v4.local tokens around abstract block functions. Decryption accepts exactly what
  encryption prints, up to one trailing dot when the footer is empty. A change of ciphertext, footer or assertion is
  accepted only through a collision of digests.
* **Schema graphs** (`SchemaGraph`, `SchemaLaws`, `SdlNames`, `OpenApi`, `OpenApiLaws`, `OpenApiShape`). The undefined
  and null analyses compute least and greatest solutions of their equations on every cyclic graph. Conversion
  terminates, throws exactly when a cycle of unregistered nodes is reached, every reference it emits leads to a
  component, and an object requires exactly the fields that do not accept undefined.
* **Kernel** (`Modules`, `Injection`, `InjectionLaws`, `PromiseLaws`, `ScopeLaws`, `Container`, `Walks`). Module
  discovery reports a cycle exactly when one is reachable, and orders modules otherwise. The container reports a cycle
  exactly when a cycle of tokens that are not cached is reachable. Over any run of gets on any containers a singleton is
  shared; whether it is made at most once over all runs is decided by the provider table alone.
* **Dispatch and resilience** (`Compose`, `Pipelines`, `PipelineLaws`, `CircuitBreaker`, `Bulkhead`, `RateLimit`). Each
  await is a step boundary and every interleaving is a list of events. Over every run of registrations and requests the
  pipeline cache is stale exactly when something was registered late for a cached key. The rate limiter admits fewer
  than twice `max` requests of a key in any interval of a window's length, one fewer than one would expect, and every
  configuration reaches that bound.
* **Static paths** (`StaticPath`). A path is refused exactly when some beginning of it leads above the root.

`ByteSeqs`, `Text`, `Lists`, `Objects`, `Walks` and `Results` hold what several modules share.

## Where the code departs from its documentation

The model follows the code; each point is a proved statement of the member named.

* The bulkhead is documented to cap concurrent executions. A call that arrives between the wake-up of a waiter and its
  resumption takes the waiter's place. The cap is kept in every interleaving if and only if `maxQueue` is 0; with a
  queue no bound holds at all (`Bulkheads.CapIsKeptExactly`, `Bulkheads.QueueHasNoCap`;
  packages/mino/src/bulkhead.ts:21-25).
* `halfOpenMaxCalls` is documented as the successful probes required to close. It bounds the admitted probes; one
  success closes the circuit, so the promise holds over all runs if and only if the option is 1
  (`CircuitBreakers.ProbesToClose`; packages/mino/src/circuit-breaker.ts:39-40).
* A pipeline is documented to be invalidated by late middleware. Late routes and a late not-found handler do not
  invalidate it: a request with a cached key runs old handlers exactly when since then something with handlers was
  registered for its node and method, or for a miss another not-found handler (`PipelineLaws.LateIsMissedExactly`,
  `PipelineLaws.LateRouteIsMissed`, `PipelineLaws.LateNotFoundIsMissed`; packages/mino/src/mino.ts:76-83).
* The preamble is documented to be discarded until the first delimiter. With a boundary that overlaps itself the scanner
  can skip that delimiter (`MultipartLaws.PreambleFindsFirstDelimiter`; packages/mino/src/multipart.ts:252-258).
* A truncated or broken delimiter is documented to give status 400. Past a size limit it gives 413 for some chunkings
  (`MultipartParts.StatusByChunking`, `MultipartParts.OpenEndDependsOnChunking`;
  packages/mino/src/multipart.ts:211-218).
* Suffix ranges are documented to be clamped to `0..size-1`, which for an empty file is the range from 0 to -1
  (`Ranges.SuffixOfEmptyFile`; packages/mino/src/file.ts:174-183).
* The singleton scope is documented as cached in the root. `getSync` refuses an asynchronous factory after calling it,
  and caches nothing. On containers with one provider table a singleton is made at most once over all runs, unless its
  factory is asynchronous, all that it asks for has a provider, no cycle is reached, and no dependency meets a transient
  asynchronous factory through aliases and transient calls (`PromiseLaws.SingletonsAreMadeOnce`,
  `InjectionLaws.GetSyncRepeatsTheFactory`; packages/kernel/src/container.ts:59-64).
* The tokens that `encrypt` prints have a dot behind the payload only before a footer. `decrypt` accepts a token without
  a footer with one bare dot behind it too (`PasetoLaws.DecryptExactly`; packages/mino/src/paseto.ts:405-417).
* A component schema given in the options under a name that every object inherits, such as `toString`, is dropped
  (`OpenApi.ToStringIsDropped`; packages/openapi/src/oas.ts:994-1002).
* A match is to report the params of its pattern; a branch that fails is undone. Under an inherited name the undo leaves
  the inherited value as a param, and a param `__proto__` is never bound (`ParamObjects.InheritedNameStays`,
  `ParamObjects.ProtoIsLost`; packages/mino/src/router.ts:281-287).

## Model

| member | source | states |
|---|---|---|
| MultipartScanner.IndexOfNeedle | packages/mino/src/multipart.ts:198-209 | the double loop finds the first index at which the needle stands, or -1 |
| ByteSeqs.IndexOfIsFirst | packages/mino/src/multipart.ts:197-209 | the index is an occurrence and no earlier one exists; -1 exactly when there is none |
| MultipartScanner.ScanState.Fill | packages/mino/src/multipart.ts:183-195 | no byte is lost or doubled: what is unread stays the same, one chunk moves to the buffer, and an empty chunk is no end of input |
| MultipartScanner.ScanState.ReadDelimiterSuffix | packages/mino/src/multipart.ts:219-250 | the terminator read from chunks is the terminator at the start of all unread bytes, and exactly its bytes are consumed |
| MultipartScanner.ScanState.SkipPreamble | packages/mino/src/multipart.ts:259-281 | discarding all but a retained tail gives the same first part, or none, or the same failure, as skipping over the whole input |
| MultipartScanner.ScanState.ReadLine | packages/mino/src/multipart.ts:334-354 | the line read from chunks is the first line of all unread bytes without its CR, or the failure of a line past the cap |
| MultipartScanner.ScanState.ReadPartHeaders | packages/mino/src/multipart.ts:392-426 | the header lines up to the blank line within the cap, or the same failure, as for the whole input |
| MultipartScanner.BodyGenerator.Next | packages/mino/src/multipart.ts:289-331 | each step of the body generator yields a nonempty prefix of the body still to come, ends where it ends, or fails as it fails; how much a failing body emits is exact for one chunk and for single bytes and lies between the two otherwise |
| MultipartScanner.BodyGenerator.AtMatch | packages/mino/src/multipart.ts:296-316 | at a delimiter match: the head before a valid terminator ends the body, a false match is content to its last byte, an impossible terminator throws at once |
| MultipartSpec.OccurrencesDisjoint | packages/mino/src/multipart.ts:131-143 | a boundary has no control bytes, so two occurrences of its delimiter never overlap |
| MultipartSpec.BodyAfterFalseMatch | packages/mino/src/multipart.ts:309-315 | skipping past a false match loses no delimiter |
| MultipartSpec.BodyAtFirstMatch | packages/mino/src/multipart.ts:295-308 | the first match with a valid terminator ends the body there |
| MultipartSpec.EmittedOrder | packages/mino/src/multipart.ts:317-330 | the least a failing body emits is at most the most it emits |
| MultipartParts.ReadBody | packages/mino/src/multipart.ts:593-632 | reading a generator to its end under byte limits gives the specified body, or a limit that the emitted bytes may pass |
| MultipartParts.IterateParts | packages/mino/src/multipart.ts:537-651 | for every chunking and every choice of bodies that the consumer reads to the end or not at all, the delivered parts are those of the whole buffer and the end is the specified one; for one chunk and for single bytes an end that depends on the chunking is determined |
| MultipartParts.CompareChunkings | packages/mino/src/multipart.ts:537-651 | two chunkings of the same bytes give the same parts, and the same end unless the specified end is `ByChunking` |
| MultipartParts.StatusByChunking | packages/mino/src/multipart.ts:537-651 | for every message, boundary and limits: one chunk and single bytes end alike if and only if the specified end is not `ByChunking`, else with 400 and with 413, and every chunking ends like one of the two |
| MultipartParts.OpenEndDependsOnChunking | packages/mino/src/multipart.ts:211-218 | the message `--b`, a blank line, `abc` and an open `--b` with a field limit of one byte ends so |
| MultipartLimits.SameMessageWithin | packages/mino/src/multipart.ts:560-632 | a message that ends under some limits is a list of sections, and under any limits it ends with the same parts if and only if no body is above the cap of its kind, there are not too many named parts and files, and all bodies together, nameless ones included, are not above the total; otherwise with 413, behind the parts before the first section that does not fit |
| MultipartLimits.LimitsDecide | packages/mino/src/multipart.ts:560-632 | the same for every text: sections decide what is read of it under any limits, and a text without them ends under none |
| MultipartLimits.SomeLimitsDo | packages/mino/src/multipart.ts:560-632 | a text has sections if and only if it ends under some limits |
| MultipartText.FileAboveFieldCap | packages/mino/src/multipart.ts:614-620 | a file of four bytes under a field cap of three is delivered, under a file cap of three refused; a field the other way round |
| MultipartText.MessageReadBack | packages/mino/src/multipart.ts:259-426 | the printed text of any sections is read back as exactly these if and only if no body holds a complete delimiter |
| MultipartText.MessageWithin | packages/mino/src/multipart.ts:537-651 | such a text gives the named parts if the sections fit the limits, else 413 |
| MultipartText.HeadersReadBack | packages/mino/src/multipart.ts:392-402 | header lines are read back exactly when they and the blank line take at most 8192 bytes with their line ends |
| MultipartText.PaddingAndLineEnd | packages/mino/src/multipart.ts:219-250 | a delimiter is complete before at most 1024 bytes of padding and CR LF, a bare LF or a bare CR; more padding is an invalid delimiter |
| MultipartText.DashesAndOthers | packages/mino/src/multipart.ts:219-242 | two dashes close; any other byte behind the padding leaves it content, and the end of input is a truncated body |
| MultipartText.LineEnds | packages/mino/src/multipart.ts:334-354 | a header line ends with CR LF, a bare LF or the input; one CR before its end is not part of it |
| MultipartLaws.FirstDelimiter | packages/mino/src/multipart.ts:289-308 | the index returned is a delimiter with a valid terminator and there is none before it |
| MultipartLaws.BodyEndsAtFirstDelimiter | packages/mino/src/multipart.ts:289-331 | the specified body is exactly the bytes before the first delimiter with a valid terminator |
| MultipartLaws.BodyConserves | packages/mino/src/multipart.ts:289-331 | body, delimiter, terminator and rest put together are the input |
| MultipartLaws.PreambleFindsFirstDelimiter | packages/mino/src/multipart.ts:264-272 | skipping the preamble finds the first valid delimiter on every input exactly when the boundary has no ambiguous overlap with itself |
| MultipartLaws.DashBoundaryIsAmbiguous | packages/mino/src/multipart.ts:131-143 | the accepted boundary of one dash has such an overlap |
| Ranges.ParseRangeList | packages/mino/src/file.ts:184-245 | each result says what the header asks for: ranges cover exactly the selected bytes in order within the file, and every refusal has its condition; with size 0 a suffix gives 0 to -1 |
| Ranges.ParseRange | packages/mino/src/file.ts:126-164 | the single range covers exactly the selected bytes within the file; a list is told apart, and every refusal has its condition |
| Ranges.ParsersAgree | packages/mino/src/file.ts:126-245 | for a header without a comma both parsers agree on refusals and on the range |
| Ranges.SuffixOfEmptyFile | packages/mino/src/file.ts:184-245 | the header `bytes=-5` for a file of zero bytes gives the range from 0 to -1 |
| RangeText.SpecReadBack | packages/mino/src/file.ts:200-236 | two numbers, each of which may be missing, with any white space around them and the dash, are read as the suffix, open or closed range that they ask for, or as garbage: both missing, a suffix of 0, numbers above the largest safe integer, an end before the start |
| RangeText.HeaderReadBack | packages/mino/src/file.ts:184-236 | the printed header of any list of ranges, its unit in any case, is read back as that list |
| RangeText.RangesOfTen | packages/mino/src/file.ts:184-245 | of ten bytes: the first two, the sixth and seventh, the last five, from the ninth on, and from the ninth to beyond the end |
| RangeText.RefusalsInOrder | packages/mino/src/file.ts:184-245 | a range beyond the end refuses the whole list, also when there are too many; a malformed one comes before both |
| Byteranges.PrintByteranges | packages/mino/src/static.ts:332-393 | the printed buffer is the concatenation of the chunks for the ranges |
| MultipartText.SliceReadBack | packages/mino/src/static.ts:378-384 | a slice before the next boundary is read back as a body of exactly its bytes if and only if it holds no complete delimiter |
| Byteranges.ByterangesReadBack | packages/mino/src/static.ts:332-406 | the printed body, scanned with its own boundary, gives exactly the slices in order if and only if no slice holds a complete delimiter |
| ByteSeqs.Flatten | packages/mino/src/static.ts:388-393 | copying chunks one after the other into a buffer of their total length gives their concatenation |
| StaticPath.NormalizeStaticPath | packages/mino/src/static.ts:72-85 | the stack loop computes where following the segments from the root leads |
| StaticPath.RefusedExactly | packages/mino/src/static.ts:77-79 | a path is refused exactly when some beginning of it has more `..` than names |
| StaticPath.NormalizedIsNormal | packages/mino/src/static.ts:72-85 | the segments of a result are names without slash or dots, and normalizing a result changes nothing |
| StaticPath.DotDotCancels | packages/mino/src/static.ts:76-81 | a name and the `..` behind it cancel, at any place of a path |
| StaticPath.DotIsNothing | packages/mino/src/static.ts:75-75 | a `.` or an empty segment is nothing, at any place of a path |
| StaticPath.NamesStay | packages/mino/src/static.ts:82-84 | a path of names stays as it is |
| Router.Router.Add | packages/mino/src/router.ts:68-127 | the heap of nodes and the fast map are what all registrations so far build; a defective pattern is refused with its reason |
| Router.Router.Walk | packages/mino/src/router.ts:72-104 | walking down the pattern creates exactly the missing nodes, up to the first defect |
| Router.Router.GrowNode | packages/mino/src/router.ts:82-102 | linking a fresh child changes no other node and adds exactly one node to the trie |
| Router.Router.MatchNode | packages/mino/src/router.ts:246-305 | the backtracking search returns the node that the walk over the trie value finds and leaves exactly its bindings, inherited names included |
| Router.Router.MatchParam | packages/mino/src/router.ts:273-289 | a failed param branch puts back what it read before, which for an inherited name is the inherited value |
| Router.Router.DecodeRemainder | packages/mino/src/router.ts:233-244 | joining with decoding only when needed is decoding every segment and joining |
| Router.Router.Match | packages/mino/src/router.ts:129-156 | the fast path, then the trie walk; for clean patterns and names that are not inherited the answer of the trie alone, HEAD falling back to GET |
| PathLaws.SplitPathIs | packages/mino/src/router.ts:308-328 | a path is split into its segments; one trailing slash is nothing, or one empty segment in a strict router; a query or a fragment changes nothing |
| PathLaws.RootPath | packages/mino/src/router.ts:308-328 | the root has no segments |
| PathLaws.TrailingSlashIsIgnored | packages/mino/src/router.ts:51-56 | unless the router is strict, a path and the same path with a slash behind it get the same answer on every table |
| PathLaws.OnlyRouteA | packages/mino/src/router.ts:129-156 | when `/a` is the only route, `/a/` is answered by it if and only if the router is not strict |
| PathLaws.StaticThenParamThenWildcard | packages/mino/src/router.ts:129-156 | with `/a`, `/:x` and `/*` for GET: which of them answers `/a`, `/b` and `/b/c`, with which params, for GET and HEAD, and that POST finds none |
| PathLaws.RequestForSegment | packages/mino/src/router.ts:246-305 | with these routes, a path of any other segment: it is decoded if it has a `%`, and bound by the param up to its length, else by the wildcard; one that cannot be decoded is a bad request |
| PathLaws.RequestForRoot | packages/mino/src/router.ts:246-262 | with these routes, the wildcard takes the root, with nothing bound to it |
| Router.Router.GetAllowedMethods | packages/mino/src/router.ts:164-224 | the methods of the node that the lenient search finds, in order of their first registration |
| RouteLaws.BuildListsMethods | packages/mino/src/router.ts:106-114 | that list names the methods with handlers, each once |
| ParamObjects.WalkFinds | packages/mino/src/router.ts:246-305 | whatever the params are called, the walk finds the node that the reference search finds |
| ParamObjects.SafeWalk | packages/mino/src/router.ts:281-287 | without inherited names the walk has the bindings of the reference search, and after a miss the bindings before it |
| ParamObjects.CodeFindsBest | packages/mino/src/router.ts:129-156 | after any registrations and for every decodable path the code finds the registered pattern before all others that match, or none exactly when none matches; with exactly its bindings if no param name is inherited |
| ParamObjects.CodeMatchTargets | packages/mino/src/router.ts:129-156 | every request is answered by the handlers of the reference match, and with its params if no param name is inherited |
| ParamObjects.BindingsAreExact | packages/mino/src/router.ts:281-287 | patterns with param names of a set bind exactly on all tables, paths and options if and only if no name of the set is inherited |
| ParamObjects.InheritedNameStays | packages/mino/src/router.ts:281-287 | with `/:name/x` and `/*` the path `/a/y` leaves the inherited value of any such name but `__proto__` as a param |
| ParamObjects.ProtoIsLost | packages/mino/src/router.ts:281-287 | a param `__proto__` is not bound |
| TrieSpec.FindIsBest | packages/mino/src/router.ts:246-305 | the reference search: among all registered patterns below a node that match, it returns the one that precedes all others, with exactly its bindings, and none exactly when none matches |
| RouteLaws.BuildWellFormed | packages/mino/src/router.ts:68-127 | every sequence of registrations builds a trie whose wildcards are leaves with handlers |
| RouteLaws.BuildHandlers | packages/mino/src/router.ts:106-114 | a pattern holds for a method exactly the handlers registered for both, in order |
| RouteLaws.RegisteredPatterns | packages/mino/src/router.ts:68-114 | the patterns with handlers are exactly those of the sound registrations |
| RouteLaws.FirstNameWins | packages/mino/src/router.ts:90-96 | a param node keeps the name of its first registration |
| RouteLaws.SearchFindsBest | packages/mino/src/router.ts:129-156 | the reference search, after any registrations and for every decodable path: the best registered pattern and its bindings, or none exactly when none matches |
| RouteLaws.PrecedesIsStrict | packages/mino/src/router.ts:265-302 | the order static, param, wildcard is strict, so the best pattern is unique |
| RouteLaws.MatchingIsOrdered | packages/mino/src/router.ts:265-302 | two different patterns that match the same path are ordered |
| RouteLaws.AllowedMethodsDecide | packages/mino/src/router.ts:164-224 | a request on a decodable path matches exactly when its method is allowed there, or is HEAD and GET is |
| FastLaws.BuildAgrees | packages/mino/src/router.ts:116-126 | a key is in the fast map exactly when its static pattern is registered, with the handlers of its node |
| FastLaws.FastMatchAgrees | packages/mino/src/router.ts:129-156 | for every method and path the fast map gives the handlers and params of the trie, if no pattern holds `?` or `#` |
| FastLaws.FastIsFreshExactly | packages/mino/src/router.ts:116-140 | whatever the patterns are, a request whose key has an entry for its method, or for HEAD that of GET, gets the answer of the trie exactly when nothing with handlers was registered for its pattern and that method after the registration that wrote the entry; a HEAD with handlers of its own that GET's entry answers, exactly when these are the same |
| FastLaws.QueryMakesFastMapStale | packages/mino/src/router.ts:116-126 | `/a` and then `/a?x`: the two answers differ |
| WebSocket.EncodeFrame | packages/mino/src/websocket.ts:95-143 | the filled buffer is the frame of RFC 6455: head bytes, the shortest length form, the mask, and octet `i` of the payload under octet `i % 4` of the mask |
| WebSocket.MaskInPlace | packages/mino/src/websocket.ts:131-138 | masking in place changes the payload only, byte `i` with byte `i % 4` of the mask |
| WebSocket.TryHead | packages/mino/src/websocket.ts:162-198 | the header at an offset: length in its three forms, or the violation, or too few bytes |
| WebSocket.TryParse | packages/mino/src/websocket.ts:162-213 | the frame at an offset, octet by octet, with its size, or the violation, or too few bytes |
| WebSocketWire.ParsedOctets | packages/mino/src/websocket.ts:162-213 | octet `i` of a parsed payload is the octet that stands there, under octet `i % 4` of the four before the payload if the mask bit is set; flags, opcode and length are those of the first octets |
| WebSocketWire.EncodedOctets | packages/mino/src/websocket.ts:95-143 | octet `i` of the payload stands at its place, under octet `i % 4` of the mask, which stands before it |
| WebSocketWire.MaskedHello | packages/mino/src/websocket.ts:162-213 | the masked frame of section 5.7 of RFC 6455 is parsed as "Hello" |
| WebSocketWire.UnmaskedHello | packages/mino/src/websocket.ts:95-213 | and so is the unmasked one, which is also what is encoded |
| WebSocketWire.LongLengths | packages/mino/src/websocket.ts:107-130 | the lengths 256 and 65536 in their longer forms |
| WebSocketWire.Defects | packages/mino/src/websocket.ts:187-247 | a control frame that is fragmented or longer than 125 bytes, a continuation without a message, and a message inside another are refused |
| WebSocketWire.FragmentedHello | packages/mino/src/websocket.ts:225-256 | the fragmented message of section 5.7 of RFC 6455 is delivered as "Hello" |
| WebSocket.FrameParser.DeliverFrame | packages/mino/src/websocket.ts:225-256 | one frame advances the reassembly state and hands on at most one message, or is refused without a change |
| WebSocket.FrameParser.Push | packages/mino/src/websocket.ts:258-274 | a push delivers what running on buffer and chunk delivers and keeps the unparsed suffix; on a violation the buffer keeps all bytes and the state is that behind the delivered frames |
| WebSocket.PushAfterViolation | packages/mino/src/websocket.ts:258-274 | after a push that threw, the next one delivers the same messages again and throws the same when the delivered frames left the state as it was; with a message in progress it delivers the leading control frames again and throws |
| WebSocketLaws.AfterViolation | packages/mino/src/websocket.ts:258-274 | the same for running the kept bytes and any more |
| WebSocket.PushAll | packages/mino/src/websocket.ts:220-275 | pushing chunks up to the first violation delivers what one push of all bytes delivers, and leaves the same suffix |
| WebSocketLaws.ParseIsStable | packages/mino/src/websocket.ts:162-213 | a parse that is decided stays decided when more bytes come |
| WebSocketLaws.RunInPieces | packages/mino/src/websocket.ts:258-274 | running on a stream in two pieces is running on the whole |
| WebSocketLaws.RestIsUnfinished | packages/mino/src/websocket.ts:266-273 | what stays in the buffer is a suffix of the stream that holds no decided frame |
| WebSocketLaws.PartitionDoesNotMatter | packages/mino/src/websocket.ts:258-274 | for every partition the pushes give the outcome of one push, up to the first violation |
| WebSocketLaws.MaskedTwice | packages/mino/src/websocket.ts:205-210 | unmasking undoes masking |
| ByteSeqs.XorBitwise | packages/mino/src/websocket.ts:205-210 | the exclusive or of two bytes, bit by bit |
| WebSocketLaws.FrameRoundTrip | packages/mino/src/websocket.ts:95-213 | a legal frame, masked or not, is parsed back from its bytes and whatever follows |
| WebSocketLaws.RunIsDelivery | packages/mino/src/websocket.ts:220-275 | running on the bytes of legal frames is delivering the frames |
| WebSocketLaws.MessagesRoundTrip | packages/mino/src/websocket.ts:95-275 | legal messages, cut into any fragments with control frames between, any masks and any chunking, are delivered in order of completion and nothing is left |
| Base64Url.BytesToBase64Url | packages/mino/src/paseto.ts:39-62 | the loop over triples prints the letters of the six-bit groups |
| Base64Url.Base64UrlToBytes | packages/mino/src/paseto.ts:64-83 | the loop with the 32-bit accumulator decodes as the unbounded bit groups do, and refuses foreign letters, a lone letter and leftover bits |
| Base64Url.AccumulatorStep | packages/mino/src/paseto.ts:74-79 | wrapping at 32 bits changes none of the bits that the loop reads |
| Base64Url.GroupBits | packages/mino/src/paseto.ts:39-62 | the four letters of three bytes stand for their bits, six at a time, highest first |
| Base64Url.Examples | packages/mino/src/paseto.ts:39-83 | the test vectors of section 10 of RFC 4648, without padding |
| Base64Url.DecodeEncode | packages/mino/src/paseto.ts:39-83 | decoding an encoding gives the bytes back |
| Base64Url.EncodeDecode | packages/mino/src/paseto.ts:64-83 | a string that the decoder accepts is the encoding of its result |
| Paseto.ConstEq | packages/mino/src/paseto.ts:103-108 | comparing without early exit decides equality |
| Paseto.Pae | packages/mino/src/paseto.ts:117-121 | the assembled buffer is count, then length and bytes of every piece |
| PasetoLaws.PaeInjective | packages/mino/src/paseto.ts:117-121 | two lists of pieces have the same encoding exactly when they are equal |
| PasetoBinding.PaeOfFew | packages/mino/src/paseto.ts:111-121 | the encodings of no piece, of one empty piece, and of the piece `test` |
| PasetoBinding.LittleEndianByte | packages/mino/src/paseto.ts:111-115 | byte `i` of a length counts multiples of 256 to the `i` |
| Paseto.Blake2b | packages/mino/src/paseto.ts:196-229 | the block loop, with its empty and keyed cases, is the chain of RFC 7693: padded blocks, byte counters, the final flag on the last block only |
| PasetoBinding.ShortDigest | packages/mino/src/paseto.ts:196-229 | a digest of at most 128 bytes takes one compression without a key, and two with one |
| Paseto.XChaCha20 | packages/mino/src/paseto.ts:345-363 | the nested loops add the key stream byte by byte, the block counter wrapping at 32 bits; wrong lengths are refused |
| PasetoLaws.StreamTwice | packages/mino/src/paseto.ts:345-363 | the cipher is its own inverse at any length |
| PasetoBinding.StreamByte | packages/mino/src/paseto.ts:345-363 | byte `64 * b + j` of the stream is byte `j` of block `b`, under a key and a nonce drawn from the long nonce; the blocks count from 0 in 32 bits |
| Paseto.Encrypt | packages/mino/src/paseto.ts:434-459 | a token is printed from nonce, ciphertext, tag and footer; bad keys and nonces are refused |
| Paseto.SplitLocalToken | packages/mino/src/paseto.ts:395-432 | the parts of a token with the expected footer, or a refusal |
| Paseto.Decrypt | packages/mino/src/paseto.ts:461-481 | the plaintext when split and tag agree, or a refusal |
| PasetoLaws.SplitExactly | packages/mino/src/paseto.ts:395-432 | a token is accepted with some parts exactly when it is the print of those parts, or that print and a bare dot with an empty footer |
| PasetoLaws.DecryptEncrypt | packages/mino/src/paseto.ts:434-481 | decrypting an encryption gives the message back |
| PasetoLaws.DecryptExactly | packages/mino/src/paseto.ts:434-481 | decryption accepts exactly the tokens that encryption prints for some nonce, up to that dot |
| PasetoBinding.ForgeryCollides | packages/mino/src/paseto.ts:447-478 | a token with the nonce and tag of a sealed one, but another ciphertext, footer or assertion, is opened only if two different inputs have the same digest |
| PasetoBinding.AssertionIsBound | packages/mino/src/paseto.ts:447-478 | a token sealed under one assertion is opened under another only if two different inputs have the same digest |
| PasetoBinding.SealedIs | packages/mino/src/paseto.ts:445-458 | nonce, ciphertext and tag stand in this order; the tag covers header, nonce, ciphertext, footer and assertion |
| PasetoBinding.KeysAreSeparated | packages/mino/src/paseto.ts:443-446 | the two derived keys are digests of different inputs, whatever the nonces |
| SchemaLaws.ProvedIsLeast | packages/graphql/src/sdl.ts:184-217 | depth-first search that cuts cycles at lazy nodes computes the least solution of monotone equations on any graph |
| SchemaLaws.InputUndefIsLeast | packages/graphql/src/sdl.ts:184-217 | "accepts undefined" is the least solution of its equations |
| SchemaLaws.NullAcceptingIsLeast | packages/graphql/src/sdl.ts:257-287 | "may be null" is the least solution of its equations |
| SchemaLaws.OutputUndefIsGreatest | packages/graphql/src/sdl.ts:220-254 | "output may be undefined" is the greatest solution: a cycle counts as possibly undefined |
| SchemaLaws.NonNullMeans | packages/graphql/src/sdl.ts:290-293 | a type is non-null exactly when those solutions hold neither undefined nor null of it |
| SchemaLaws.NonNullByKind | packages/graphql/src/sdl.ts:184-293 | what wrapping in nullable, optional, default, lazy or a union does to it |
| SchemaLaws.OutputRequiredIsInputRequired | packages/graphql/src/sdl.ts:290-293 | without defaults, non-null output types are non-null input types |
| SchemaLaws.CompilersAgree | packages/openapi/src/oas.ts:387-417 | the OpenAPI analysis agrees with the SDL one on every graph |
| SdlNames.SanitizeName | packages/graphql/src/sdl.ts:41-50 | the result is a legal name, and a legal name other than `_` stays as it is |
| SdlNames.SanitizeExamples | packages/graphql/src/sdl.ts:41-50 | other characters become underscores, a leading digit gets one before it, and the fallback stands in for nothing or one underscore |
| SdlNames.Names.ClaimName | packages/graphql/src/sdl.ts:52-75 | the search for a free name ends and claims the first candidate that is not taken, a legal name |
| SdlNames.CandidateExamples | packages/graphql/src/sdl.ts:57-66 | the candidates for `A` are `A`, `A2` and so on up to `A10` |
| Text.DecimalValue | packages/graphql/src/sdl.ts:61-64 | numbers are told apart by their digits, so the candidates of a name differ |
| OpenApi.EscapeReadsBack | packages/openapi/src/oas.ts:68-70 | an escaped name is one reference token of RFC 6901 that reads back as the name |
| OpenApi.ReferenceText | packages/openapi/src/oas.ts:68-70 | the reference to a component named `a/b~c` |
| OpenApi.Context.Convert | packages/openapi/src/oas.ts:946-971 | pushing and popping the active stack computes the specified conversion and leaves the stack as it was |
| OpenApiShape.RequiredMeans | packages/openapi/src/oas.ts:849-856 | a name is required if and only if some field of that name has its node outside the least solution of "accepts undefined"; with distinct names the list has each once, in the order of the fields |
| OpenApiShape.PropertiesAreFields | packages/openapi/src/oas.ts:849-853 | property `i` is field `i`, converted below the object |
| OpenApiShape.IdIsRequired | packages/openapi/src/oas.ts:849-856 | an object with a scalar `id` and an optional `note` requires `id` only |
| OpenApiShape.MappingMeans | packages/openapi/src/oas.ts:921-943 | the mapping of a discriminated union leads from exactly the tags of the registered variants to their components |
| OpenApiShape.NullsAreLeftOut | packages/openapi/src/oas.ts:901-919 | a union with null and a literal null leaves both out in version 3.0, and nothing in 3.1 |
| OpenApiShape.KeysOfRecord | packages/openapi/src/oas.ts:870-900 | key constraints of a record stand behind its values, in version 3.1 only |
| OpenApi.Context.ConvertChildren | packages/openapi/src/oas.ts:784-784 | children are converted in order up to the first error |
| OpenApi.MergeSchemas | packages/openapi/src/oas.ts:995-1002 | the options add exactly the entries whose names are neither taken nor inherited; the given entries are kept, and names stay distinct |
| OpenApi.MergedEntries | packages/openapi/src/oas.ts:995-1002 | a name is in the merged table exactly when it was given, or is added and not inherited |
| OpenApi.ToStringIsDropped | packages/openapi/src/oas.ts:998-998 | a schema that the options name `toString` is not in the table |
| OpenApi.RegisterNames | packages/openapi/src/oas.ts:1004-1010 | a node gets the last name it is registered under |
| OpenApi.BuildComponents | packages/openapi/src/oas.ts:987-1037 | every entry is converted under its name, or the document fails exactly when some entry fails |
| OpenApiLaws.ThrowsExactly | packages/openapi/src/oas.ts:946-971 | conversion throws exactly when a cycle without a registered node is reached along unregistered nodes |
| OpenApiLaws.RegisteredRecursionConverts | packages/openapi/src/oas.ts:952-962 | when every lazy node or its target is registered, nothing throws |
| OpenApiLaws.RefsAreClosed | packages/openapi/src/oas.ts:921-957 | every reference and mapping entry that the conversion emits names a registered component |
| OpenApiLaws.DocumentRefsAreClosed | packages/openapi/src/oas.ts:987-1037 | every reference emitted into a document unescapes to a key of its component table |
| Modules.Discovery.Visit | packages/kernel/src/application.ts:78-95 | a visit keeps the order sound and ends with the module in it, or reports a reachable cycle or a reachable module without metadata |
| Modules.Discover | packages/kernel/src/application.ts:72-97 | without an error the order lists exactly the reachable modules once, after their imports; with all metadata it throws exactly when a cycle is reachable, and names it |
| Containers.Container.Register | packages/kernel/src/container.ts:41-51 | a second provider for a token is refused and changes nothing |
| Containers.Container.FindProvider | packages/kernel/src/container.ts:221-226 | own providers hide those of the ancestors |
| Containers.Container.GetRoot | packages/kernel/src/container.ts:228-232 | following the parents ends at the root |
| Containers.Container.Resolve | packages/kernel/src/container.ts:118-219 | resolving changes the root's singletons and the own request cache as specified, and nothing else |
| Containers.Container.ResolveDeps | packages/kernel/src/container.ts:282-292 | dependencies are resolved in order up to the first error |
| Containers.Container.CreateRequestScope | packages/kernel/src/container.ts:76-82 | a request scope sees the same providers and singletons and has an empty cache |
| ScopeLaws.ScopeSharesInstance | packages/kernel/src/container.ts:155-164 | over every run of gets, two gets of a request-scoped token in one scope give the same instance |
| ScopeLaws.ScopesAreApart | packages/kernel/src/container.ts:76-164 | over every run of gets, two scopes never give the same made instance of a request-scoped token |
| ScopeLaws.TransientIsNew | packages/kernel/src/container.ts:166-170 | over every run of gets, each get of a transient token gives an instance of its own |
| InjectionLaws.ResolveFrames | packages/kernel/src/container.ts:118-219 | caches only grow, and nothing happens to the tokens on the path |
| InjectionLaws.ResolveFindsCycles | packages/kernel/src/container.ts:118-219 | a success has seen no cycle, whatever it found cached on the way; an error tells why it is one |
| InjectionLaws.CyclesAreReported | packages/kernel/src/container.ts:118-176 | with all providers present, resolution fails exactly when a cycle of tokens that are not cached is reachable, and the reported chain is one |
| InjectionLaws.RunMakesOnce | packages/kernel/src/container.ts:140-153 | over any run of gets on any containers in which no get is refused for its promise, a singleton is made at most once |
| InjectionLaws.MadeOnceUnlessRefused | packages/kernel/src/container.ts:140-153 | a singleton is made at most once over all runs on containers of any family of tables if and only if no synchronous get of any run comes to its asynchronous factory |
| PromiseLaws.RefusedExactly | packages/kernel/src/container.ts:178-268 | on containers with one table some run comes there if and only if the factory is asynchronous, all that it asks for has a provider, no cycle is reached, and no dependency meets a transient asynchronous factory through aliases and transient calls |
| PromiseLaws.SingletonsAreMadeOnce | packages/kernel/src/container.ts:140-268 | on containers with one table a singleton is made at most once over all runs if and only if the table is not such a one |
| PromiseLaws.GetSyncIsRefusedExactly | packages/kernel/src/container.ts:178-268 | on every table and cache: `getSync` is refused for the promise of its token exactly when the factory is asynchronous, the token is not cached, and its dependencies resolve |
| InjectionLaws.ResolvedAgain | packages/kernel/src/container.ts:118-219 | what has been resolved resolves again with more in the caches on a path that it avoids; after `get` also synchronously, if it meets no promise |
| InjectionLaws.SingletonsAreShared | packages/kernel/src/container.ts:140-153 | after a successful get of a singleton every later one, through any container, gives the same instance |
| InjectionLaws.SyncAgrees | packages/kernel/src/container.ts:178-219 | without asynchronous factories the synchronous copy does what `get` does |
| InjectionLaws.GetSyncRepeatsTheFactory | packages/kernel/src/container.ts:260-268 | on every table and cache: `getSync` on a singleton with an asynchronous factory whose dependencies resolve calls it, keeps nothing, and can do so again |
| Compose.Execution.Dispatch | packages/mino/src/compose.ts:35-45 | entering a handler, or settling behind the last one, advances the index |
| Compose.Execution.Next | packages/mino/src/compose.ts:50-53 | a second `next` of the same handler is refused and changes nothing |
| Compose.Execution.Settle | packages/mino/src/compose.ts:62-100 | how a dispatch settles: a returned response, the downstream response, the one on the context, or an error |
| Compose.HandlersAreEnteredOnce | packages/mino/src/compose.ts:35-58 | in every interleaving the handlers entered are the first ones, once and in order, and the index guard never fires |
| Compose.NotFoundExactly | packages/mino/src/compose.ts:103-107 | the caller gets the not-found response exactly when nothing is thrown and no response was returned or set |
| Compose.WhoseResponseWins | packages/mino/src/compose.ts:62-100 | over every run: what a dispatch gave is the response of its own handler, else the one from downstream, else the one on the context |
| Compose.AnswerIs | packages/mino/src/compose.ts:103-107 | the caller gets that response of the first dispatch, else the one on the context, else not-found |
| Pipelines.Mino.Use | packages/mino/src/mino.ts:98-155 | registering middleware drops every compiled pipeline |
| Pipelines.Mino.AddRoute | packages/mino/src/mino.ts:192-204 | registering a route changes the route table and nothing else, the cache included |
| Pipelines.Mino.SetNotFound | packages/mino/src/mino.ts:162-165 | setting a not-found handler changes nothing else, the cache included |
| Pipelines.Mino.Fetch | packages/mino/src/mino.ts:386-487 | a request is routed by the table so far and runs the pipeline cached for its key, or one composed and cached now; a bad path runs none |
| Pipelines.Mino.PipelineFor | packages/mino/src/mino.ts:424-487 | the cached pipeline, or the current middleware and handlers, cached in place of the oldest entry when the cache is full |
| PipelineLaws.MatchNamesNode | packages/mino/src/router.ts:115-156 | the reported pattern of a match determines its trie node |
| PipelineLaws.RouteTableIsConsistent | packages/mino/src/mino.ts:428-435 | for every route table of clean paths two requests have the same cache key exactly when they have the same target, 404 and 405 included |
| PipelineLaws.FetchRunsWanted | packages/mino/src/mino.ts:424-487 | over every run of `use`, route and not-found registrations and requests, a request runs the current middleware and the current handlers of its target if and only if its key is not cached or stands for the same handlers as at the request that cached it |
| PipelineLaws.UnchangedExactly | packages/mino/src/mino.ts:428-435 | a key stands for the same exactly when no later registration has handlers for its node and method, a 405 always, a 404 when the not-found handler is the same |
| PipelineLaws.LateIsMissedExactly | packages/mino/src/mino.ts:76-83 | over every run with clean paths, a request runs the wanted pipeline if and only if its key is not cached, or nothing with handlers was registered for its node and method, and for a miss no other not-found handler, since the request that cached it |
| PipelineLaws.SetUpThenServe | packages/mino/src/mino.ts:109-204 | when routes and not-found handler are registered before the first request, every request of every run runs the wanted pipeline |
| PipelineLaws.CacheIsBounded | packages/mino/src/mino.ts:477-487 | over every run the cache has at most 1024 entries |
| PipelineLaws.NewestAreKept | packages/mino/src/mino.ts:472-487 | targets with new keys are cached in turn, and the newest 1024 stay, in their order |
| PipelineLaws.StagesInOrder | packages/mino/src/mino.ts:436-475 | over every run, what is composed is all middleware in order of registration, then the handlers of the route, the 405 answer or the not-found handler |
| PipelineLaws.GlobalIsUsed | packages/mino/src/mino.ts:98-155 | over every run, the middleware is what `use` was given, in that order |
| PipelineLaws.AllowOfTwo | packages/mino/src/mino.ts:447-456 | the Allow header joins the methods with a comma and a blank |
| PipelineLaws.MethodCaseIsIgnored | packages/mino/src/mino.ts:192-312 | methods are the same in any case, for routes and for requests |
| PipelineLaws.LateRouteIsMissed | packages/mino/src/mino.ts:192-204 | a route for `/a` registered after a request for `/a` is not seen by the next one |
| PipelineLaws.LateNotFoundIsMissed | packages/mino/src/mino.ts:162-165 | a not-found handler set after a miss is not run by the next one |
| CircuitBreakers.CircuitBreaker.GetState | packages/mino/src/circuit-breaker.ts:73-79 | reading the state may turn an open circuit half-open |
| CircuitBreakers.CircuitBreaker.Enter | packages/mino/src/circuit-breaker.ts:86-92 | a call is admitted exactly when the circuit is closed or has probes left |
| CircuitBreakers.CircuitBreaker.OnSuccess | packages/mino/src/circuit-breaker.ts:109-112 | a success clears the failures and closes a half-open circuit |
| CircuitBreakers.ProbesToClose | packages/mino/src/circuit-breaker.ts:39-40 | every half-open episode of every run that closes the circuit without a reset has seen the promised number of successes if and only if that number is 1 |
| CircuitBreakers.OneSuccessCloses | packages/mino/src/circuit-breaker.ts:109-112 | such an episode has seen exactly one success, its last event |
| CircuitBreakers.CircuitBreaker.OnFailure | packages/mino/src/circuit-breaker.ts:114-124 | a counted failure opens a half-open circuit, or one at its threshold |
| CircuitBreakers.ClosedBelowThreshold | packages/mino/src/circuit-breaker.ts:86-124 | over every run, closed implies fewer failures in a row than the threshold |
| CircuitBreakers.OpensExactly | packages/mino/src/circuit-breaker.ts:109-124 | over every run, an event opens a closed circuit if and only if it is a counted failure and as many as the threshold have happened in a row, without a success or a reset between them |
| CircuitBreakers.FailuresAreInARow | packages/mino/src/circuit-breaker.ts:109-124 | over every run, the failures that are counted are those since the last success or reset |
| CircuitBreakers.NoAdmissionBeforeTimeout | packages/mino/src/circuit-breaker.ts:73-92 | over every run, no call is admitted before the timeout has passed since the circuit opened, unless it was closed in between |
| CircuitBreakers.EpisodeIsBounded | packages/mino/src/circuit-breaker.ts:89-92 | over every run, one half-open episode admits at most the configured number of calls |
| CircuitBreakers.EpisodeAdmitsTheFirst | packages/mino/src/circuit-breaker.ts:73-92 | over every run, a half-open episode admits exactly the first calls that arrive in it, as many as configured |
| CircuitBreakers.UncountedProbesStick | packages/mino/src/circuit-breaker.ts:114-115 | a half-open circuit whose probes are used up refuses every call until a success, a counted failure or a reset |
| CircuitBreakers.UsedUpAdmitsAgain | packages/mino/src/circuit-breaker.ts:73-124 | after the first of these it admits a call at once, or after a counted failure exactly from the timeout on |
| CircuitBreakers.ProbesStickExactly | packages/mino/src/circuit-breaker.ts:73-124 | over every run it comes to admit a call again if and only if the run has one of these |
| Bulkheads.Bulkhead.Begin | packages/mino/src/bulkhead.ts:53-60 | a call starts, waits or is rejected |
| Bulkheads.Bulkhead.Leave | packages/mino/src/bulkhead.ts:63-67 | an ending call wakes the first waiter |
| Bulkheads.QueueIsServed | packages/mino/src/bulkhead.ts:53-68 | in every interleaving the queue is bounded, and while somebody waits all places are taken or promised |
| Bulkheads.ArrivalsFill | packages/mino/src/bulkhead.ts:53-60 | of calls that arrive while none ends the first take the free places, the next the free places of the queue in their order, and all others are rejected |
| Bulkheads.CapIsKeptExactly | packages/mino/src/bulkhead.ts:53-68 | at most `maxConcurrent` calls run in every interleaving if and only if `maxQueue` is 0 |
| Bulkheads.QueueHasNoCap | packages/mino/src/bulkhead.ts:53-68 | with a queue any number of calls can come to run at once |
| Bulkheads.LimitIsKept | packages/mino/src/bulkhead.ts:53-68 | if woken waiters resume before any new arrival, the limit is kept |
| Bulkheads.LimitCanBeExceeded | packages/mino/src/bulkhead.ts:54-66 | otherwise two calls can run with one place |
| Bulkheads.StartsInOrder | packages/mino/src/bulkhead.ts:53-68 | if woken waiters resume before any new arrival, calls start in order of arrival, none lost and none twice |
| RateLimits.RateLimiter.Prune | packages/mino/src/rate-limit.ts:81-87 | only expired buckets are forgotten, and either few are left or all left are live |
| RateLimits.RateLimiter.Request | packages/mino/src/rate-limit.ts:93-104 | every decision is that of a limiter that never forgets a bucket, so pruning never changes one |
| RateLimits.CeilSecondsIsLeast | packages/mino/src/rate-limit.ts:93-104 | the retry time is the least whole number of seconds that reaches the end of the window |
| RateLimits.WindowBound | packages/mino/src/rate-limit.ts:95-104 | at most `max` requests of a key are admitted per window |
| RateLimits.IntervalBound | packages/mino/src/rate-limit.ts:95-104 | in any interval of a window's length fewer than twice `max` requests of a key are admitted |
| RateLimits.IntervalBoundIsTight | packages/mino/src/rate-limit.ts:95-104 | for every limit of at least 1 and every window of at least two milliseconds a run reaches that bound |

## Left out

- Router.Router.MatchNode: the bindings go in and out as a value instead of living in one shared object; what a failed branch does to them is part of the contract.
- MultipartParts.IterateParts: consumers read a body to its end or not at all; one that breaks out closes the generator and is not modelled. Errors of the stream reader are not modelled.
- OpenApi.Context.Convert: the shape of a schema keeps its node, its converted children, its required fields and its discriminator mapping; checks, metadata, nullability and warnings are not modelled.
- OpenApi.BuildComponents: the schema table is a list in its own order; that an object lists integer-like keys first is not modelled. Paths, webhooks and the other component sections are not converted.
- Compose.NotFoundExactly: a response on the context is always a response; the duck test for responses of another realm is not modelled.
- CircuitBreakers.CircuitBreaker.Enter: the state change callback, which could call back into the breaker, is not modelled.
- Bulkheads.Bulkhead.Continue: which waiters are woken but not yet resumed is known to the event loop only and is a parameter.
- RateLimits.RateLimiter.Request: the key of a request is given; the choice of the client address and the response headers are not modelled.
- Containers.Container.Resolve: one method with a flag stands for the asynchronous and the synchronous copy, which differ in the check for promises; concurrent gets, factories that throw, overriding, destruction, clearing of caches and the discovery of constructor dependencies are not modelled.
- Paseto.Blake2b: the compression function, the ChaCha block function and HChaCha are parameters with known lengths; their rounds are not modelled.
- Paseto.Encrypt: texts are given as bytes and the nonce as a parameter; random bytes and v4.public are not modelled.
- WebSocket.EncodeFrame: text payloads are given as bytes and the random mask as a parameter.
- SdlNames.Names.ClaimName: the warning about a changed name is not modelled.
- Ranges.ParseRangeList: numbers are exact up to the largest safe integer, which is where the code stops accepting them too.
- InjectionLaws.MadeOnceUnlessRefused: for containers whose tables differ the condition is about runs; a condition on the tables is given for one table (`PromiseLaws.SingletonsAreMadeOnce`).
- Byteranges.ByterangesReadBack: no part is classified as nameless, as a client of the same grammar would read it; the form parser finds no name in the headers of such a part and skips it.
- OpenApiLaws.DocumentRefsAreClosed: the references of the component table; those in paths, webhooks and the other component sections are not covered.
- Byteranges.PrintByteranges: files that are held in memory; ranges that a loader reads one by one are not modelled.
- SchemaGraph.InputUndef: `resolve` of a lazy node always gives the same node.
- Pipelines.Mino.Use: the form with a path, which wraps the handlers in a prefix test, is not modelled.
- Pipelines.Mino.AddRoute: the prefix option of the application is not modelled, nor is the exception for a defective pattern, which leaves the route table as modelled.
- Pipelines.Mino.PipelineFor: compiling is keeping the list of handlers.
- Pipelines.Mino.Fetch: the error handler, HEAD responses and the URI limits are not modelled.
- `decodeURIComponent` is a partial function that leaves texts without `%` alone.
- `Headers` and the parameters of Content-Disposition: what header lines make of a part is a parameter.
- Decorators, guards, authorization, header middleware, stores, adapters and emission of SDL text: they would only add easy members.
- The provider registration behind module discovery.
