# ROAR protocol: verified model

This project models the stateful and algorithmic core of the ROAR SDKs (Python, TypeScript and Rust) in Dafny and
proves what that core is for. Code that works in place is modelled as methods and classes with the same loops and
fields, each proved against a specification function; the laws are lemmas about those functions, over all inputs and
all runs.

| modules | component |
|---|---|
| `Radix`, `Base58Alphabet`, `DidKey` | did:key identifiers: base58 by carry loops over digit arrays |
| `TaskGraph`, `Kahn`, `RunLaws`, `Workflows` | the workflow graph and the engine that runs it |
| `WebSocketFrames`, `WebSocketBytes`, `WebSocketEndpoints` | framing and incremental parsing at both ends (RFC 6455) |
| `WebSocketSessions`, `WebSocketOrder`, `WebSocketSerial`, `WebSocketClose` | the server's handlers, interleaved at their awaits, against chunks handled one after the other |
| `WebSocketStream`, `WebSocketDelivery`, `WebSocketServer` | what the server takes of a client's stream, and the connection as an object |
| `TextOrder`, `Entries`, `CanonicalJson`, `JsonInjective`, `JsonTheorems`, `SigningBodies`, `SigningTexts`, `PythonJson`, `JsonStrings` | canonical JSON under signatures |
| `SeenLog`, `ReplayGuards`, `Verifier` | replay protection |
| `Subscriptions`, `EventBuses` | the event bus with floating buffer capacity |
| `DiscoveryLaws`, `DiscoveryCaches` | the TTL and LRU discovery cache |
| `TokenBuckets` | the rate limiter |
| `TokenUses`, `TokenStores`, `Dispatch` | delegation tokens: use counts and message dispatch |
| `AuditChain` | the hash-chained audit log |
| `KeyRotation`, `KeyTrust` | trusted keys and their rotation |
| `GrantLaws`, `Autonomy` | runtime capability grants and their index |
| `Wrappers`, `Cardinality` | shared datatypes and set sizes |

## How the outside world enters

- Clocks are nondecreasing arguments. The verifier and the Python guard take one for each reading of the code; a call
  that reads the clock several times in a row, once per key, entry or token (`rotate_key`, `purge_expired`, the cache
  sweep, `is_authorized`, `get_autonomy_level`, `cleanup_expired`), takes one for all of them. The token bucket needs
  no order for its exact characterization.
- Answers to sends are a function of task and attempt; the interleaving of coroutines is any interleaving, and so is
  that of WebSocket handlers, which give way at each awaited dispatch. What the rate limit, the signature and the
  duplicate check say of the n-th text is a parameter.
- Random ids are fresh arguments. Signature checks, DID resolution, JSON parsing of a frame and the text of
  non-integer numbers are parameters. Hash functions are parameters; a lemma that needs it asks for freedom from
  collision on the entries of the logs at hand.
- Bytes are numbers from 0 to 255; text is a sequence of code points, without surrogates.

## Where the code and its documentation differ

- base58: the initial digit 0 gives an all-zero or empty input one character too many (`ts/src/did_key.ts:33`), so the
  raw codec does not invert such inputs. Keys are never affected, because of their two-byte prefix.
- WebSocket: the texts behind an auth frame in the same chunk are dropped (`ts/src/router.ts:452-459`), and those behind
  the text `null`, on which a member access raises outside any `try` (`ts/src/router.ts:443,469`). Handlers of
  different chunks overtake one another at their awaits, also past a close: the run is that of chunks handled one after
  the other exactly when no handler takes a text while an earlier one has one left, and none takes one on arrival while
  a close waits in an earlier one. A text payload equal to the sentinel `"\x00CLOSE"` acts as a close; a frame over
  1 MiB closes the connection.
- `pythonJsonDumps` promises the text of Python's `json.dumps` (`ts/src/message.ts:22`), and `rust/src/signing.rs:11`
  promises the same. With whole numbers of up to 15 digits, TypeScript keeps it exactly on trees without a character
  from U+007F up, which Python escapes, and without an int, which Python prints without ".0". Rust keeps it
  exactly on trees without such a character, and gives the TypeScript text exactly when no number is an int and no
  object has two keys that code points and UTF-16 units order differently.
- Replay guard: `dedup.py` calls its eviction LRU (`python/src/roar_sdk/dedup.py:31`); both guards evict in order of
  recording, and a presentation does not refresh.
- Event bus: with a limit below 1 the first event is counted as dropped though nothing was; the buffer can exceed the
  effective limit; what is buffered at a close is neither received nor counted as dropped.
- The server says the use count on the wire is ignored (`python/src/roar_sdk/server.py:78-79`); `verify_token` consults
  it, after a use has been taken from the store. A forged token takes a use as well.
- `rotate_key` retires the old key before it validates the new one; a malformed key raises and leaves the DID without
  its active key.
- `is_key_trusted` can change its answer when expired keys are purged.
- `add_task` raises on a cycle only after inserting its task; a task with a negative `max_retries` is never sent.
- Truncating an audit log at the end leaves it valid: the last hash must be kept elsewhere.

## Model

| member | source | states |
|---|---|---|
| DidKey.Base58Encode | ts/src/did_key.ts:24-53 | the carry loops return the specified text: one `1` per leading zero byte, then the base-58 numeral of the bytes read as one number |
| DidKey.Base58Decode | ts/src/did_key.ts:58-90 | the carry loops return the specified bytes, or the first character outside the alphabet as the error |
| DidKey.AppendByte | ts/src/did_key.ts:34-45 | one pass of the encoder: carries stay below 256, and the digit array of n becomes that of 256n + byte, with no leading zero appearing |
| DidKey.AppendSymbol | ts/src/did_key.ts:70-81 | one pass of the decoder: carries stay below 58, and the byte array of n becomes that of 58n + digit |
| DidKey.PublicKeyToDidKey | ts/src/did_key.ts:101-106 | the DID of any byte string, as specified |
| DidKey.DidKeyToPublicKey | ts/src/did_key.ts:113-128 | the key or the one error the code raises, in the order of its checks |
| Radix.MulAddIsDigits | ts/src/did_key.ts:34-45 | an inner carry loop over the digits of n in any base yields the digits of n * mul + c |
| Radix.NumeralIsUnique | ts/src/did_key.ts:24-53 | two digit strings without a leading zero and of equal value are equal |
| Radix.DigitsValue | ts/src/did_key.ts:58-90 | digits and value are inverse: no other minimal representation exists |
| Radix.ValueIsPositional | ts/src/did_key.ts:33-51 | a digit in front counts by the power of the base of all that follows: the most significant digit comes first |
| Base58Alphabet.AlphabetIs | ts/src/did_key.ts:19 | the alphabet is the digits but 0, the capitals but I and O and the small letters but l |
| Base58Alphabet.SymbolOrder | ts/src/did_key.ts:19 | its symbols ascend, which with the above fixes each symbol's number |
| DidKey.DecodeEncode | ts/src/did_key.ts:24-90 | decode(encode(b)) is b exactly for byte strings with a nonzero byte |
| DidKey.EncodeIs | ts/src/did_key.ts:24-53 | for bytes not all zero, the text is the one over the alphabet with as many leading ones as the bytes have leading zeros and with the same number in base 58 |
| DidKey.EncodeDecode | ts/src/did_key.ts:24-90 | encode(decode(s)) is s exactly for texts with a character other than `1` |
| DidKey.ZerosDoNotRoundTrip | ts/src/did_key.ts:24-53 | an all-zero or empty input of n bytes comes back as n + 2 zero bytes |
| DidKey.KeyRoundTrip | ts/src/did_key.ts:101-128 | a byte string comes back from its DID exactly when it has 32 bytes |
| DidKey.DidRoundTrip | ts/src/did_key.ts:101-128 | every DID the decoder accepts is the DID of the key it yields, which has 32 bytes |
| DidKey.DidKeyBijection | ts/src/did_key.ts:101-128 | for 32-byte keys, "is the DID of" and "decodes to" are the same relation |
| DidKey.DidTextIs | ts/src/did_key.ts:101-107 | the DID of a key is "did:key:z" and the base58 text, without a leading one, of the number that 0xed, 0x01 and the key spell in base 256 |
| DidKey.DidReads | ts/src/did_key.ts:113-128 | which DIDs are accepted and with which error any other is refused, from the prefix, the first character outside the alphabet, the two prefix bytes and the length of 34 |
| Workflows.Workflow.AddTask | python/src/roar_sdk/workflow.py:121-152 | an unknown dependency raises and changes nothing; otherwise it is inserted, and a cycle is raised after the insertion |
| Workflows.Workflow.CheckCycles | python/src/roar_sdk/workflow.py:154-178 | passes exactly when no cycle exists, exactly when a rank function exists, for any in-graph dependencies with repeats, self-loops and missing ids |
| Kahn.VisitsAll | python/src/roar_sdk/workflow.py:165-178 | the queue loop terminates and visits every node exactly when the graph is acyclic |
| Kahn.BuildIndex | python/src/roar_sdk/workflow.py:156-163 | adjacency lists and in-degrees count each dependency with its repeats |
| Kahn.Release | python/src/roar_sdk/workflow.py:167-173 | taking one node counts its successors down and queues those that reach zero |
| TaskGraph.AcyclicIffNoCycle | python/src/roar_sdk/workflow.py:154-178 | a rank function exists exactly when no dependency chain returns to its start |
| TaskGraph.StuckHasCycle | python/src/roar_sdk/workflow.py:175-178 | unvisited tasks that all wait for unvisited tasks contain a cycle |
| TaskGraph.NewTaskKeepsAcyclic | python/src/roar_sdk/workflow.py:132-150 | a task with a fresh id on existing tasks introduces no cycle |
| Workflows.Workflow.GetReadyTasks | python/src/roar_sdk/workflow.py:180-193 | the PENDING tasks whose in-graph dependencies are all COMPLETED, in insertion order |
| Workflows.Workflow.SetStatus | python/src/roar_sdk/workflow.py:195-217 | the status of one task is set; an unknown id is reported and changes nothing |
| Workflows.Workflow.IsComplete | python/src/roar_sdk/workflow.py:219-222 | whether every task is COMPLETED, FAILED or CANCELLED |
| Workflows.Workflow.GetExecutionOrder | python/src/roar_sdk/workflow.py:224-262 | raises exactly on a cycle; otherwise the batches hold exactly the PENDING and RUNNING tasks and batch k lists once each the PENDING or RUNNING tasks whose longest chain of such dependencies has length k; none is empty, none missing |
| Kahn.Batches | python/src/roar_sdk/workflow.py:249-262 | the level loop computes those batches |
| Kahn.ReleaseLevel | python/src/roar_sdk/workflow.py:254-260 | one level is released: the next one holds exactly the tasks one step deeper |
| TaskGraph.DepthIsLongestChain | python/src/roar_sdk/workflow.py:249-262 | the recursive depth is the length of a longest chain, which exists and is the only one |
| Workflows.WorkflowEngine.Resume | python/src/roar_sdk/workflow.py:306-331 | one stretch of a task coroutine between two suspensions, for each answer and retry limit |
| Workflows.WorkflowEngine.Gather | python/src/roar_sdk/workflow.py:362 | the coroutines of a wave, resumed in any interleaving, terminate and leave each of its tasks executed as its answers demand and every other task alone |
| RunLaws.WaveStep | python/src/roar_sdk/workflow.py:306-331 | every resumption keeps the invariant of a wave: sends in order, retry counts, and no send before all dependencies completed |
| Workflows.WorkflowEngine.Wave | python/src/roar_sdk/workflow.py:352-362 | a wave takes PENDING tasks away and keeps what holds between waves |
| Workflows.WorkflowEngine.CancelAllPending | python/src/roar_sdk/workflow.py:355-360 | every PENDING task becomes CANCELLED, nothing else changes |
| Workflows.WorkflowEngine.Run | python/src/roar_sdk/workflow.py:338-381 | terminates for all answers and interleavings; raises exactly on a cycle; otherwise the outcome law holds, retry counts are the numbers of failed attempts, exactly the executed tasks were sent, as often as due and never before their dependencies completed, and the waves are levels of the graph |
| RunLaws.SendsBound | python/src/roar_sdk/workflow.py:309-328 | at most 1 + max_retries sends, none for a negative limit |
| RunLaws.RunEnds | python/src/roar_sdk/workflow.py:352-381 | when no PENDING task is ready, cancelling the rest establishes the outcome law |
| RunLaws.SendsEnd | python/src/roar_sdk/workflow.py:296-336 | over a whole run each task was sent attempts 0, 1, ... up to the first answer, and only the executed tasks |
| RunLaws.RetriesEnd | python/src/roar_sdk/workflow.py:323-328 | over a whole run the retry count of an executed task is the number of its failed attempts, if any failed |
| RunLaws.SentExactly | python/src/roar_sdk/workflow.py:296-336 | said of the log: an attempt is sent exactly when the run executed its task and all attempts before it, within the limit, went unanswered; each once, in order |
| RunLaws.ReadyDepth | python/src/roar_sdk/workflow.py:353-362 | what is ready after k waves has longest chain k |
| RunLaws.WavesEnd | python/src/roar_sdk/workflow.py:352-362 | wave k is exactly the executed tasks of level k |
| RunLaws.WavesAreBatches | python/src/roar_sdk/workflow.py:224-262 | from an all-PENDING start with every send answered, the waves of a run are the execution batches, as sets |
| TaskGraph.OutcomeUnique | python/src/roar_sdk/workflow.py:338-381 | the outcome law fixes every final status: scheduling cannot change the result |
| TaskGraph.CancelledIffBlocked | python/src/roar_sdk/workflow.py:354-360 | a task of the run ends CANCELLED exactly when a chain of dependencies leads to a task that failed or was never this run's to complete |
| TaskGraph.FreshRun | python/src/roar_sdk/workflow.py:338-381 | from an all-PENDING start every task ends COMPLETED, FAILED or CANCELLED, and CANCELLED exactly when some transitive dependency FAILED |
| WebSocketEndpoints.WsSendText | ts/src/router.ts:61-83 | writes the unmasked text frame of section 5.2 of RFC 6455, in each of the three length encodings; from 4 GiB on it raises and writes nothing |
| WebSocketEndpoints.SendRaw | ts/src/websocket.ts:237-270 | writes the masked text frame, masking a copy in place; from 4 GiB on it raises and writes nothing |
| WebSocketEndpoints.ParseWsFrames | ts/src/router.ts:97-159 | the offset loop returns the texts of the complete frames, with the close sentinel where it stops, and the unread remainder |
| WebSocketEndpoints.Unmask | ts/src/router.ts:137-143 | the in-place unmasking loop is the masking function |
| WebSocketEndpoints.ReadFrame | ts/src/websocket.ts:174-209 | reading one frame from the front of the client buffer |
| WebSocketEndpoints.ClientSocket.ParseFrames | ts/src/websocket.ts:172-223 | the slicing loop handles the texts of the complete frames and keeps the rest, or closes |
| WebSocketEndpoints.ClientSocket.OnData | ts/src/websocket.ts:167-170 | however the stream is cut, the client has handled exactly the texts of all bytes received so far |
| WebSocketFrames.FirstFrameStable | ts/src/router.ts:97-159 | once a frame is recognised or refused, later bytes do not change it, whatever header field the buffer ended in |
| WebSocketFrames.ParseAppend | ts/src/router.ts:97-159 | parsing a + b is parsing a, then its remainder and b, unless a already closed |
| WebSocketEndpoints.ChunkingDoesNotMatter | ts/src/router.ts:418-425 | feeding a stream through the buffer in any chunks yields the texts, the closing and (if open) the leftover of parsing it whole |
| WebSocketEndpoints.SameStreamSameFrames | ts/src/router.ts:418-425 | two ways of cutting the same stream yield the same |
| WebSocketFrames.MaskTwice | ts/src/router.ts:137-143 | masking twice with one mask is the identity, as section 5.3 of RFC 6455 needs |
| WebSocketFrames.XorTwice | ts/src/router.ts:137-143 | XOR, defined bit by bit on numbers, undoes itself |
| WebSocketFrames.XorBits | ts/src/router.ts:137-143 | every bit of the result is the sum of the two bits without carry |
| WebSocketFrames.XorZero | ts/src/router.ts:137-143 | a zero in the mask changes nothing |
| WebSocketBytes.HelloOfTheStandard | ts/src/websocket.ts:237-270 | the unmasked and the masked "Hello" of section 5.7 of RFC 6455 are written byte by byte and read back |
| WebSocketBytes.HeaderIs | ts/src/router.ts:65-82 | the header in numbers: 129, and the length in 7, 16 or 64 bits |
| WebSocketBytes.ClientFrameIs | ts/src/websocket.ts:237-270 | header, mask, and each payload byte XORed with the mask byte of its turn |
| WebSocketBytes.FirstFrameIs | ts/src/router.ts:100-145 | in numbers, when the first frame is incomplete, refused (above 1048576 bytes) or complete, and then its opcode, size and payload |
| WebSocketBytes.ParseIs | ts/src/router.ts:146-158 | opcodes 1 and 2 are passed on, 8 closes, all others are skipped |
| WebSocketEndpoints.CloseTextIs | ts/src/router.ts:152 | a close shows as one more text, a zero character and CLOSE |
| WebSocketFrames.HeaderIsRead | ts/src/websocket.ts:237-260 | every header written is read back with its length, masked or not, in front of anything |
| WebSocketFrames.ServerFrameParses | ts/src/router.ts:61-83 | a server frame in front of anything parses to its payload up to 1 MiB and is refused beyond |
| WebSocketFrames.ClientFrameParses | ts/src/websocket.ts:237-270 | a client frame in front of anything parses to its payload, whatever the mask, up to 1 MiB and is refused beyond |
| WebSocketFrames.ServerRoundTrip | ts/src/router.ts:61-83 | the client recovers the server's payloads with nothing left over, and closes exactly at the first one over 1 MiB |
| WebSocketFrames.ClientRoundTrip | ts/src/websocket.ts:237-270 | the server recovers the client's payloads for all masks with nothing left over, and closes exactly at the first one over 1 MiB |
| WebSocketEndpoints.ClientReachesServer | ts/src/router.ts:418-425 | client frames cut into any chunks yield the payloads exactly when none exceeds 1 MiB |
| WebSocketServer.ServerConnection.OnData | ts/src/router.ts:422-490 | a chunk is parsed behind the buffer and its handler runs up to its first awaited dispatch; until the stream closes the texts handed out are those of the stream, and every handler has taken its own texts in order and without gaps |
| WebSocketServer.ServerConnection.Resume | ts/src/router.ts:486-490 | a handler whose dispatch has been answered goes on, whatever other handlers have done meanwhile |
| WebSocketServer.ServerConnection.HandleFrames | ts/src/router.ts:427-490 | the loop over the texts of a chunk up to the next wait: sentinel, non-JSON, null, authentication, rate limit, dispatch |
| WebSocketSessions.GoTakes | ts/src/router.ts:427-490 | one stretch of a handler takes what counts (JSON in front of the first close) in order and without gaps, and something if there is anything; if no close and no null ends it early, what it took and what it left are all that counts |
| WebSocketSessions.GoStops | ts/src/router.ts:427-490 | behind authentication a stretch stops at the first text that is handed to the server and awaited, is a close, or is a null that the rate limit lets through, and at no other |
| WebSocketOrder.WithinChunks | ts/src/router.ts:422-490 | in every interleaving each handler takes what counts of its chunk in order and without gaps |
| WebSocketOrder.TextsFollowStream | ts/src/router.ts:422-425 | in every run, until the stream closes, the texts of the chunks are those of the stream and the buffer is its remainder |
| WebSocketOrder.InOrderIff | ts/src/router.ts:427-490 | on every connection, once all handlers are through: texts were taken in the order of their chunks exactly when no handler took one while an earlier handler had one left in front of its first close |
| WebSocketSerial.SerialIff | ts/src/router.ts:422-490 | on every connection, once all handlers are through: the session is that of the same chunks handled to the end one after the other, exactly when the run was orderly in that sense and no chunk's handler took anything on arrival while a close waited in an earlier one |
| WebSocketClose.TakenBehindCloseIff | ts/src/router.ts:428-431 | on every connection: a text is taken from a chunk behind one with a close exactly when some chunk's handler takes something on arrival after that close has arrived |
| WebSocketClose.CloseStillWaits | ts/src/router.ts:428-431 | in every run, a close that arrived while the socket is open still waits in its handler, unless a null or the token ended that handler in front of it |
| WebSocketClose.HeedsIff | ts/src/router.ts:428-431 | so where only closes end handlers, the condition on waiting closes and that on arrived ones are the same |
| WebSocketStream.RunGuarded | ts/src/router.ts:439-460 | in every run the session is authenticated, still asked for its token or refused for good as the first JSON or close of the chunks so far decides |
| WebSocketStream.OrderlyFollowsStream | ts/src/router.ts:422-490 | an orderly run over heard chunks without close and null takes exactly what counts of the chunks behind the one that presented the token, in order; nothing if it was not presented |
| WebSocketStream.WholeStreamIsTaken | ts/src/router.ts:422-490 | without a token to present, that is what counts of the whole stream, however it was cut |
| WebSocketDelivery.QuietIsSerial | ts/src/router.ts:422-490 | a run in which every chunk finds all handlers through leaves the session of chunks handled one after the other |
| WebSocketDelivery.LaterChunkCanOvertake | ts/src/router.ts:486 | two messages in one chunk and one in the next can be taken first, third, second |
| WebSocketDelivery.TakenBehindClose | ts/src/router.ts:428-431 | a run in which a message is taken behind a close that waits in an earlier chunk behind an awaited dispatch; one after the other it would not be taken |
| WebSocketDelivery.TogetherOrApartIff | ts/src/router.ts:427-490 | a chunk is handled like its texts in chunks of their own exactly when every text behind an accepted token or a raising null in it is inert |
| WebSocketDelivery.MessageBehindAuthIsLost | ts/src/router.ts:452-459 | a message that shares the chunk of the auth frame is dropped |
| WebSocketDelivery.MessageBehindNullIsLost | ts/src/router.ts:469 | so is a message behind the text null that the rate limit lets through |
| WebSocketDelivery.ClientIsTakenIff | ts/src/router.ts:422-490 | a client stream handled as one chunk is taken payload by payload exactly when no payload exceeds 1 MiB, is the sentinel, is no JSON, or is a null in front of others that the rate limit lets through |
| WebSocketStream.ClientIsTakenInOrder | ts/src/router.ts:422-490 | cut into any chunks, on a connection without a token to present, JSON payloads within the limit are taken in their order in every orderly run |
| WebSocketStream.ClientIsTakenBehindToken | ts/src/router.ts:439-490 | when the client presents its token first, all payloads are taken in order but those that shared the chunk of the token, so all of them exactly when there were none |
| CanonicalJson.DumpsIsPrintedCanon | ts/src/message.ts:29-53 | sorting while printing prints the tree whose keys were sorted first |
| SigningTexts.ValueTextIs | ts/src/message.ts:29-42 | what each kind of value is printed as: null, booleans, numbers, quoted strings, and arrays item by item in their order |
| JsonStrings.EscapedIsRead | ts/src/message.ts:32 | escaped strings are read back under section 7 of RFC 8259 |
| JsonStrings.SpellingsAre | ts/src/message.ts:32 | only quotes, backslashes and control characters are escaped, each in its shortest spelling with small digits |
| JsonStrings.PyEscapedIsRead | python/src/roar_sdk/types.py:190-201 | so are the strings Python escapes, surrogate pairs included |
| JsonStrings.PySpellingsAre | python/src/roar_sdk/types.py:190-201 | Python escapes whatever is outside space to tilde, in its shortest spelling |
| JsonInjective.QuoteUnique | ts/src/message.ts:32 | a quoted string is delimited by itself: no quoted text is a proper prefix of another |
| JsonInjective.NumberUnique | ts/src/message.ts:33-38 | a number text and the integer flag can be read off the printed number |
| JsonInjective.PrintUnique | ts/src/message.ts:29-53 | a printed plain tree, followed by what can follow it, determines the tree and the rest |
| Entries.SortIsCanonical | ts/src/message.ts:44 | sorted member lists are equal exactly when they hold the same members |
| Entries.SortedAscending | ts/src/message.ts:44 | the sorted members ascend in the key order |
| JsonTheorems.CanonIffSame | ts/src/message.ts:29-53 | two trees have the same sorted form exactly when they are equal up to key order at every depth |
| JsonTheorems.DumpsIffSame | ts/src/message.ts:29-53 | two trees print alike exactly when they are equal up to key order (and up to what prints as null) |
| PythonJson.PythonPrintsTheSameIff | ts/src/message.ts:21-53 | with whole numbers of up to 15 digits, the text is that of Python's json.dumps with sorted keys exactly when no key and no string holds a character from U+007F up and Python holds every number as a float |
| PythonJson.PythonCanDiffer | python/src/roar_sdk/types.py:190-201 | a one-letter string for which it is not, since Python writes an escape; and the int 1, which TypeScript prints as 1.0 |
| PythonJson.TextsOf | python/src/roar_sdk/types.py:190-201 | the Python text is always ASCII, that of the TypeScript printer exactly on ASCII trees, where the two printers agree on the same numbers |
| SigningBodies.RecordTexts | ts/src/message.ts:67-78 | bodies built over the same fixed keys print alike exactly when their values are pairwise the same |
| SigningBodies.MessageBodyIff | ts/src/message.ts:67-78 | two messages have one signing body exactly when id, from, to, intent, payload, context and the signed timestamp agree |
| SigningTexts.MessageTextIs | ts/src/message.ts:67-78 | the signed text of every message, field by field: context, from, id, intent, payload, timestamp (that of auth unless absent or null) and to |
| SigningBodies.SortTextsIff | ts/src/delegation.ts:126 | sorted capability lists are equal exactly when they hold the same capabilities as often |
| SigningBodies.TokenBodyIff | ts/src/delegation.ts:121-133 | two delegation tokens have one signing body exactly when every field but signature and use_count agrees, capabilities up to order |
| SigningTexts.TokenTextIs | ts/src/delegation.ts:121-133 | the signed text of every token: its eight fields by name, sorted, the capabilities sorted |
| SigningBodies.SortOrdered | ts/src/delegation.ts:126 | the sorted capabilities do not descend |
| TextOrder.BeforeIsStrict | ts/src/message.ts:44 | each key order is a strict total order |
| TextOrder.BeforeTransitive | ts/src/message.ts:44 | each key order is transitive |
| TextOrder.LexLessIs | ts/src/message.ts:44 | one list of code units or points comes before another exactly when it is a proper prefix or smaller at the first difference |
| TextOrder.BeforeIs | ts/src/message.ts:44 | in both key orders a proper prefix comes first, and otherwise the first differing character decides; a supplementary one lies below U+E000 by code units only |
| TextOrder.OrdersAgree | rust/src/signing.rs:92-93 | the UTF-16 order of JavaScript and the code-point order of Rust agree on two keys exactly when their first difference is not a supplementary character against U+E000 to U+FFFF |
| JsonTheorems.CanonAgrees | rust/src/signing.rs:86-104 | the two sorted forms of a tree are equal exactly when no object has two keys on which the orders differ |
| PythonJson.RustPrintsPythonsTextIff | rust/src/signing.rs:8-104 | with whole numbers of up to 15 digits, the Rust sort-then-print form is Python's text exactly when no key and no string holds a character from U+007F up |
| PythonJson.RustPrintsTheSameIff | rust/src/signing.rs:49-104 | and the TypeScript text exactly when every number is a float and no object has two keys on which the orders differ |
| PythonJson.RustCanDiffer | rust/src/signing.rs:49-104 | a one-letter string on which Rust and Python part, and an object on which Rust and TypeScript do |
| ReplayGuards.PythonGuard.EvictExpired | python/src/roar_sdk/dedup.py:82-92 | the front-popping loop removes what the specification calls old |
| ReplayGuards.PythonGuard.IsDuplicate | python/src/roar_sdk/dedup.py:40-65 | answer and new state of a presentation, with the two clock readings the code takes |
| ReplayGuards.TypeScriptGuard.IsDuplicate | ts/src/dedup.ts:39-44 | answer and new state of a presentation |
| ReplayGuards.TypeScriptGuard.MarkSeen | ts/src/dedup.ts:50-62 | new state of recording a key, which moves it to the back and evicts first |
| ReplayGuards.TypeScriptGuard.EvictExpired | ts/src/dedup.ts:68-78 | the early-stopping sweep |
| ReplayGuards.TypeScriptGuard.Clear | ts/src/dedup.ts:86-88 | nothing is left |
| SeenLog.SweepIsExact | ts/src/dedup.ts:68-78 | on an ordered map the early stop removes exactly the expired keys |
| SeenLog.OldIs | python/src/roar_sdk/dedup.py:82-95 | a key is dropped from the age of ttl on (Python) or above it (TypeScript) |
| SeenLog.DuplicateIs | python/src/roar_sdk/dedup.py:53-65 | a presented key is a duplicate exactly when the ordered log holds it young enough, by the clock alone |
| SeenLog.RecordIs | ts/src/dedup.ts:50-66 | a recorded key stands last at its time; the others keep their places but for the first one beyond the capacity |
| SeenLog.RunProper | ts/src/dedup.ts:39-88 | after any run with a nondecreasing clock the map is ordered by time, names no key twice, and holds at most its capacity (a TypeScript limit below 1 acts as 1) |
| SeenLog.ForgottenOnlyWhen | ts/src/dedup.ts:39-88 | a recorded key that is missing without a clear is older than the TTL, or at least maxKeys other keys were recorded since |
| SeenLog.PresentedAgain | python/src/roar_sdk/dedup.py:40-65 | a key presented again within the TTL is reported, unless at least max_keys others were recorded since |
| SeenLog.DuplicateKeepsItsPlaceIff | python/src/roar_sdk/dedup.py:53-65 | presenting a duplicate leaves the order as it was: that of least recent use exactly when the key stood last before the presentation |
| SeenLog.PresentedAgainIsForgotten | python/src/roar_sdk/dedup.py:61-63 | with room for two, a key just presented again is forgotten for a third and the older one kept |
| Verifier.StrictMessageVerifier.VerifyMessage | python/src/roar_sdk/verifier.py:57-121 | the cascade: first failing check as verdict, guard consulted between the timestamp and the signature, and changed only then |
| Verifier.AcceptedIff | python/src/roar_sdk/verifier.py:57-121 | accepted exactly when of version 1, addressed here, inside the time window, not held by the guard, and signed: under an allowed scheme, with the secret its key identifier selects or the sender's trusted key |
| Verifier.RefusalIs | python/src/roar_sdk/verifier.py:57-93 | in front of the guard, the refusal is that of the first check that fails |
| Verifier.RefusalBehindIs | python/src/roar_sdk/verifier.py:95-121 | behind it, the one for the missing secret or key, or for the signature that fails under it |
| Verifier.GuardIsWritten | python/src/roar_sdk/verifier.py:86-96 | every new id that passes the checks in front is recorded before its signature is looked at; no other message is |
| Verifier.AcceptedOnce | python/src/roar_sdk/verifier.py:86-106 | in any run a given (id, auth timestamp) is accepted twice only if max_keys other ids were recorded in between, provided the TTL exceeds maximum age plus future skew plus the delay between clock readings |
| Verifier.ServerAcceptsOnce | python/src/roar_sdk/server.py:313-324 | as wired in the server (10000 keys, TTL 600, ages 300 and 30) no message is accepted twice with fewer than 10000 others in between |
| Verifier.ShortMemoryAcceptsTwice | python/src/roar_sdk/verifier.py:86-94 | the bound is sharp: with a TTL of at most age plus skew a good message is accepted at both ends of its window |
| EventBuses.Subscription.Deliver | ts/src/streaming.ts:83-105 | new state of each branch: hand over, drop the oldest and halve, or buffer and grow; false exactly when closed |
| EventBuses.Subscription.Replay | ts/src/streaming.ts:178-182 | the replay loop leaves exactly the matching events accepted |
| EventBuses.Subscription.Get | ts/src/streaming.ts:108-113 | the oldest buffered event, or a registered waiter, or undefined when closed; the bus invariant stays |
| EventBuses.Subscription.Close | ts/src/streaming.ts:125-132 | closing ends the wait, removes the subscription from the bus and fixes its stretch of the stream |
| EventBuses.EventBus.Subscribe | ts/src/streaming.ts:169-186 | a new subscription covers the stream from here, or from replaySize events back, and has accepted the matching part |
| EventBuses.EventBus.Publish | ts/src/streaming.ts:189-203 | each registered subscription that matches takes the event, all others are unchanged; the count is theirs; the replay window moves; and for every subscription ever made the accepted events remain the matching part of one unbroken stretch of all published events, up to its close |
| EventBuses.AfterAccepts | ts/src/streaming.ts:32-47 | a registered subscription takes an event exactly when each of its filter's lists is empty or names the event's value |
| EventBuses.ReachedIs | ts/src/streaming.ts:189-203 | the count is that of the subscriptions so reached |
| EventBuses.EventBus.CloseAll | ts/src/streaming.ts:209-214 | every subscription is closed and none stays registered, and nothing else about them changes |
| Subscriptions.EveryRun | ts/src/streaming.ts:83-132 | with a limit of at least 1, in every run: accepted = received + dropped + buffered, in order and as a suffix, a waiter implies an empty buffer, and 1 <= capacity <= maxBuffer and |buffer| <= maxBuffer |
| Subscriptions.DeliverAccounted | ts/src/streaming.ts:83-105 | a delivery keeps the accounts: nothing vanishes, nothing is reordered |
| Subscriptions.AccountsNeedRoomForOne | ts/src/streaming.ts:94-103 | the first event of a subscription is accounted for exactly when the limit is at least 1 |
| Subscriptions.SettledIffEmptyAtClose | ts/src/streaming.ts:108-132 | after a close nothing is handed over, dropped or counted any more: all accepted events end received or dropped exactly when the buffer was empty at the close |
| Subscriptions.DeliveryExceedsLimitIff | ts/src/streaming.ts:94-103 | a delivery without a waiter leaves the buffer above the effective limit exactly when it was full and longer than half the capacity |
| Subscriptions.BufferMayExceedLimit | ts/src/streaming.ts:94-103 | after halving, four events are buffered under an effective limit of two |
| DiscoveryCaches.DiscoveryCache.Get | ts/src/discovery_cache.ts:58-73 | answer, new order and counters of a lookup |
| DiscoveryCaches.DiscoveryCache.Put | ts/src/discovery_cache.ts:76-95 | new order of a put, with the eviction loop |
| DiscoveryCaches.DiscoveryCache.Invalidate | ts/src/discovery_cache.ts:98-100 | the entry is gone; whether there was one |
| DiscoveryCaches.DiscoveryCache.EvictExpired | ts/src/discovery_cache.ts:145-151 | exactly the unexpired entries stay, in order |
| DiscoveryCaches.DiscoveryCache.Search | ts/src/discovery_cache.ts:112-125 | the unexpired cards that advertise the capability, in order |
| DiscoveryCaches.AssignThenMove | python/src/roar_sdk/discovery_cache.py:78-83 | assigning in place and moving to the end is deleting and appending, so the Python cache takes the same steps |
| DiscoveryLaws.NextGood | ts/src/discovery_cache.ts:58-105 | every operation keeps the invariant: order is recency of use, at most max_entries, and whatever is live but not cached has seen max_entries other DIDs used since |
| DiscoveryLaws.OrderIsRecency | ts/src/discovery_cache.ts:68-71 | of two cached entries the later one was used since the earlier one, and not conversely |
| DiscoveryLaws.GetAnswers | ts/src/discovery_cache.ts:58-73 | in every run a hit returns the last card put for that DID, not invalidated, cleared or expired; and such a card is returned if fewer than max_entries other DIDs were used since |
| DiscoveryLaws.CachedIffRecent | ts/src/discovery_cache.ts:76-95 | while nothing is taken out, a DID is cached exactly when fewer than max_entries others were used since |
| DiscoveryLaws.SearchSweeps | ts/src/discovery_cache.ts:145-151 | in every run a sweep leaves exactly the unexpired entries |
| TokenBuckets.TokenBucket.Consume | ts/src/router.ts:43-54 | a call is granted exactly when granting it keeps every window of calls ending with it within capacity + rate * duration |
| TokenBuckets.LevelIsLeastSlack | ts/src/router.ts:43-54 | the token level at a call is the least room left by any window ending there |
| TokenBuckets.GrantedExactly | python/src/roar_sdk/router.py:58-66 | over any run, call k is granted exactly when all those windows have room for it; for every capacity, rate and clock |
| TokenBuckets.FitsIs | python/src/roar_sdk/router.py:58-66 | having room, in numbers: behind the calls granted in a window one is left of the capacity and rate times its length |
| TokenBuckets.CountIs | python/src/roar_sdk/router.py:58-66 | the calls granted are counted one by one |
| TokenBuckets.WindowBound | ts/src/router.ts:26-55 | no window of consecutive calls from time s to t grants more than capacity + rate * (t - s) |
| TokenBuckets.NoneGrantsMore | ts/src/router.ts:26-55 | no limiter that obeys those bounds has granted more calls at any point |
| TokenBuckets.TokensInRange | ts/src/router.ts:26-55 | tokens stay between 0 and the capacity |
| TokenBuckets.SteadyCallerIsGranted | ts/src/router.ts:26-55 | with capacity at least 1, a call made 1/rate after the previous one is granted |
| TokenStores.InMemoryTokenStore.GetAndIncrement | python/src/roar_sdk/token_store.py:44-50 | approves exactly when unlimited or fewer uses than the limit were approved before; the counts are the approvals |
| TokenStores.Remote.IncrIfBelow | python/src/roar_sdk/token_store.py:101-110 | the script: the new count, or -1 and no change exactly at or above the limit |
| TokenStores.RemoteTokenStore.GetAndIncrement | ts/src/token_store.ts:96-109 | either remote protocol, through prefixed keys, answers by what was approved (script) or presented (INCR) before |
| TokenUses.CountMeans | python/src/roar_sdk/token_store.py:44-50 | a count is the number of approvals, or of presentations in the INCR store |
| TokenUses.UseLimit | python/src/roar_sdk/token_store.py:101-117 | in every run at most m calls with limit m are approved for a token, whatever other limits it comes with, in each store |
| TokenUses.FixedLimitsAgree | ts/src/token_store.ts:96-109 | with one limit per token every store approves exactly the first uses up to the limit |
| TokenUses.StoresAgreeIff | ts/src/token_store.ts:96-109 | on any run the stores approve the same calls exactly when no limit lies above the approvals and at or below the presentations before it |
| TokenUses.CompareAfterwardsIsStricter | ts/src/token_store.ts:96-109 | the INCR store approves nothing the others would refuse |
| TokenUses.MixedLimitsDisagree | ts/src/token_store.ts:96-109 | limits 0 then 1 tell them apart |
| Dispatch.ROARServer.HandleMessage | python/src/roar_sdk/server.py:135-266 | a handler is reached exactly when signature, binding, expiry, use limit, key, token signature and intent all pass; a message refused before the store leaves it unchanged; and when the reply is "exhausted" |
| Dispatch.ROARServer.On | python/src/roar_sdk/server.py:121-133 | the latest handler registered for an intent serves it |
| Dispatch.AtMostLimitHandled | python/src/roar_sdk/server.py:194-266 | no run hands more than m messages with a token and max_uses = m to a handler, even when the token id also arrives with other limits |
| Dispatch.FirstUsesAreHandled | python/src/roar_sdk/server.py:160-266 | when all messages naming a token carry the limit m, a proper one is handled exactly when fewer than m earlier messages naming it, forged or not, got as far as the store, and its intent has a handler: with either store |
| Dispatch.UseIsWastedIff | python/src/roar_sdk/server.py:194-266 | a use is taken and the message not handled exactly when it reaches the store and then fails on DID resolution, token signature, second expiry check, wire count or intent, or is refused by the store that counts refusals |
| Dispatch.ForgedTokenTakesTheUse | python/src/roar_sdk/server.py:175-240 | a forged token naming another's id, presented by its own delegate, takes the only use and the genuine message is refused |
| Dispatch.WireCountWastesAUse | python/src/roar_sdk/delegation.py:58-64 | a message whose own use_count has reached the limit takes a use from the store and is still refused |
| AuditChain.AuditLog.Record | python/src/roar_sdk/audit.py:170-208 | the new entry is linked to the last hash, hashed, signed when there is a key, and appended |
| AuditChain.AuditLog.VerifyChain | python/src/roar_sdk/audit.py:210-245 | true exactly when every entry links, hashes and verifies; otherwise the verdict on the first that does not |
| AuditChain.PassesIs | python/src/roar_sdk/audit.py:210-245 | a log passes exactly when every entry carries the hash before it ("genesis" at first), the hash of its body, and a good signature if there is one and a key |
| AuditChain.FaultIs | python/src/roar_sdk/audit.py:216-241 | the verdict on the first other entry: broken link, tampered body or bad signature, in that order |
| AuditChain.RecordedPasses | python/src/roar_sdk/audit.py:170-245 | every log built by record passes, with a matching key or none |
| AuditChain.PrefixPasses | python/src/roar_sdk/audit.py:210-245 | every prefix of a passing log passes (so cutting off the end goes unnoticed) |
| AuditChain.HeadPinsLog | python/src/roar_sdk/audit.py:84-107 | passing logs with one last hash agree in length and in every hashed field of every entry, unless bodies of the two collide or hash to the genesis mark |
| AuditChain.HashesAreDistinct | python/src/roar_sdk/audit.py:84-107 | no hash occurs twice in a passing log whose bodies do not collide |
| AuditChain.ChangeIsFound | python/src/roar_sdk/audit.py:210-245 | changing a hashed field at or before an entry whose hash is kept makes the log fail, if no bodies collide |
| AuditChain.LengthIsPinned | python/src/roar_sdk/audit.py:210-245 | leaving out or adding entries before a kept last hash makes the log fail, if no bodies collide |
| AuditChain.CollisionsLoseTheLog | python/src/roar_sdk/audit.py:210-245 | under a hash that collides, two different logs pass with the same last hash |
| AuditChain.HeadPinsMessages | python/src/roar_sdk/audit.py:71-107 | if neither the recorded contents nor the entries collide, the last hash of a recorded log determines the recorded messages, their order and their times |
| KeyTrust.KeyTrustStore.RegisterKey | python/src/roar_sdk/key_trust.py:93-139 | the new key stands first for its DID, a malformed one changes nothing, other DIDs are untouched |
| KeyTrust.KeyTrustStore.RotateKey | python/src/roar_sdk/key_trust.py:141-179 | the first active key is retired and the new one inserted; a malformed one raises after the retirement |
| KeyTrust.KeyTrustStore.GetTrustedKey | python/src/roar_sdk/key_trust.py:181-203 | the newest key neither expired nor rotated, or which of the two errors |
| KeyTrust.KeyTrustStore.VerifyMessage | python/src/roar_sdk/key_trust.py:230-261 | the newest unexpired key of the sender the signature verifies under, never past its expiry or grace |
| KeyTrust.KeyTrustStore.PurgeExpired | python/src/roar_sdk/key_trust.py:263-276 | every DID keeps exactly its unexpired keys, and none keeps an empty list |
| KeyRotation.NeverPastGrace | python/src/roar_sdk/key_trust.py:160-179 | in no run is a key rotated at r accepted after min(its first expiry, r + grace) |
| KeyRotation.GraceIsHonoured | python/src/roar_sdk/key_trust.py:158-179 | and until then messages under it are accepted, whatever is registered, rotated or purged meanwhile |
| KeyRotation.RetireIs | python/src/roar_sdk/key_trust.py:158-175 | a rotation marks the first key that is neither expired nor replaced, and cuts its lifetime to the grace period |
| KeyRotation.TrustedIs | python/src/roar_sdk/key_trust.py:192-203 | the key in charge is the first neither expired nor replaced |
| KeyRotation.VerifiedIs | python/src/roar_sdk/key_trust.py:249-261 | the key a message verifies under is the first unexpired one that verifies it, replaced or not |
| KeyRotation.RotationTakesOver | python/src/roar_sdk/key_trust.py:178-203 | after a rotation the new key is the trusted one exactly when the default lifetime is not negative |
| KeyRotation.PurgingChangesNoAnswer | python/src/roar_sdk/key_trust.py:263-276 | leaving out all purges of a run changes neither the trusted key nor any verification, at any later time |
| KeyRotation.PurgeChangesKeyTrustedIff | python/src/roar_sdk/key_trust.py:205-228 | is_key_trusted is the exception: a purge changes its answer exactly when the newest entry for the key has expired and an older one has not |
| KeyRotation.PurgeCanChangeKeyTrusted | python/src/roar_sdk/key_trust.py:205-228 | a run in which it does: registered for ten hours, again for one, purged after two |
| KeyRotation.OneActiveKey | python/src/roar_sdk/key_trust.py:160-179 | a DID registered once and then only rotated and purged never has two active keys |
| KeyRotation.ActiveBound | python/src/roar_sdk/key_trust.py:93-179 | in general, no more active keys than registrations, counting a first rotation as one |
| KeyRotation.FailedRotationIsHarmlessIff | python/src/roar_sdk/key_trust.py:158-179 | a rotation to a malformed key leaves the keys unchanged exactly when none was active |
| KeyRotation.FailedRotationLosesTheKey | python/src/roar_sdk/key_trust.py:158-179 | a run in which it costs the only key |
| Autonomy.CapabilityDelegation.Grant | python/src/roar_sdk/autonomy.py:122-154 | the token is in the table and listed for its grantee |
| Autonomy.CapabilityDelegation.Revoke | python/src/roar_sdk/autonomy.py:156-162 | the token is marked revoked; whether there was one |
| Autonomy.CapabilityDelegation.IsAuthorized | python/src/roar_sdk/autonomy.py:164-190 | the answer from the index is "some token in the whole table lets this agent do this at this level" |
| Autonomy.CapabilityDelegation.GetAutonomyLevel | python/src/roar_sdk/autonomy.py:192-204 | the highest level of any valid token of the agent in the whole table, or WATCH |
| Autonomy.CapabilityDelegation.CleanUpExpired | python/src/roar_sdk/autonomy.py:216-224 | exactly the invalid tokens leave table and index, and their number is returned |
| Autonomy.DropKeepsIndex | python/src/roar_sdk/autonomy.py:219-223 | removing a token from table and list keeps the index exact |
| GrantLaws.HighestIsUnique | python/src/roar_sdk/autonomy.py:192-204 | no other level is the highest, so that contract fixes the answer |
| GrantLaws.CleanUpChangesNoAnswer | python/src/roar_sdk/autonomy.py:216-224 | a clean-up changes no authorization and no level, then or later |
| GrantLaws.ValidIffStanding | python/src/roar_sdk/autonomy.py:118-224 | in every run a token is valid exactly when it was granted, not revoked since and not expired |
| GrantLaws.AuthorizedIffGranted | python/src/roar_sdk/autonomy.py:164-190 | in every run an agent is authorized exactly when a standing, unexpired grant to it covers the capability at the level |
| GrantLaws.LetsIs | python/src/roar_sdk/autonomy.py:95-108 | said of its fields: a token lets its grantee act unless revoked or past a positive expiry, for a capability it lists or all, up to its level |
| GrantLaws.LevelAtLeast | python/src/roar_sdk/autonomy.py:63-68 | the levels ascend from watch over guide and delegate to autonomous |

## Left out

- HTTP, SSE, stdio, gRPC and QUIC transports, the CLI, demos, benchmarks, OpenTelemetry and DNS: input and output around the parts modelled.
- Cryptography: HMAC, Ed25519, SHA-256, key encodings and constant-time comparison are parameters.
- UTF-8 encoding of texts and the handshake before the first frame, with its head bytes.
- Lone surrogates in strings, and the languages' rules for printing non-integer numbers.
- How TypeScript, Python and Rust print fractions, exponents and numbers of more than 15 digits.
- Task results, payloads, intents, timeouts and tracing of workflow tasks; only statuses, retry counts and sends are kept.
- The timeout path of `Subscription.get` (`ts/src/streaming.ts:116-121`), and the value a closed waiter is resolved with.
- Python's `mark_seen`, which refreshes a time without moving the key.
- Redis key expiry and network failures in the token stores.
- `consumeToken` in TypeScript, one comparison and one increment on a token object.
- The numbers returned by `purge_expired` and by `_evict_expired`, hit rates and other statistics.
- PING and PONG replies, and closing initiated by the application.
- Hubs, adapters, DID documents, credentials, plugins, the Go SDK, and the Go and Rust event buses.
- Numbers that are not reals: times, rates and capacities are exact reals where the code has floating point, so rounding is not modelled; nor is an infinite or NaN auth timestamp, the latter of which passes both age tests of the verifier.
- Workflows.Workflow.SetStatus: keeps the status; the result and error texts that complete_task and fail_task store beside it are not modelled.
- WebSocketServer.ServerConnection.HandleFrames: a raised error ends the handler; what the runtime does with a rejected handler is not modelled.
- PythonJson.RustPrintsPythonsTextIff: here too numbers are whole and have up to 15 digits, without negative zero.
- PythonJson.PythonPrintsTheSameIff: numbers are whole and have up to 15 digits, without negative zero; the texts of others follow the languages' own rules.
- JsonTheorems.DumpsIffSame: values are JSON-like trees with distinct keys per object; other JavaScript values that print by String(value) are not part of the model.
- SigningBodies.MessageBodyIff: the timestamp is compared as it is printed, so undefined and null count as absent alike.
- Verifier.StrictMessageVerifier.VerifyMessage: a verifier without a replay guard is not modelled; it makes no promise about repetition.
- DiscoveryCaches.DiscoveryCache.Put: a negative capacity is not modelled: the TypeScript loop does not end there and the Python one raises.
- KeyTrust.KeyTrustStore.RotateKey: keys are values in their lists, so a metadata object handed out earlier does not change with its list entry; a key without an expiry, which no operation creates, is not modelled.
- Autonomy.CapabilityDelegation.Revoke: tokens are values in the table, so a token handed out by grant does not show its later revocation.
- AuditChain.AuditLog.VerifyChain: a signature whose encoding is malformed raises in the code; here the check parameter answers it.
- Dispatch.ROARServer.HandleMessage: the answers of the outside world to one message are given with it, and messages are handled one after the other; the handler's own reply is not modelled.
