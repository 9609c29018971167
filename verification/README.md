# A verified model of hiredis

This project models the hiredis client library that is bundled under `include/windows/hiredis` and
proves properties of the model. It covers four connected parts.

* **The wire protocol.** `Resp` is the reply half of the Redis serialization protocol as a recursive
  grammar on byte strings. `Reader` is the incremental reader: a compacting buffer, nine read tasks on an
  explicit stack, and reply objects that are linked into their parent's slots while they are still
  growing. The reader is proved to compute the grammar on the queue of bytes fed and not yet returned,
  and `Feeding` concludes that what is read does not depend on how the stream is cut. `Format` holds the
  two command formatters and the walk over a formatted command; `Decimal` the number routines.
* **The asynchronous API.** `Async` is the protocol of commands, replies and teardown as functions of a
  state, with user callbacks that may issue commands, disconnect or free the context while they run.
  `AsyncRuns` shows that every run of it is made of fifteen kinds of small steps, `AsyncPromises` proves
  the invariant of those steps, `AsyncTheorems` what follows for whole runs, and `AsyncFailures` which
  assertions of the source fail, exactly when, and what a disconnect cuts off. `AsyncOrigins` marks every
  callback with the command it was passed with and follows the marks through all steps.
  `AsyncLaws` states what each request and each event does to a context, for all states.
  `AsyncCounterexamples` gives runs in which the code does not do what its comments say. `AsyncContexts`
  is the context as an object whose methods change its fields; every method is proved to take the state
  where the function of `Async` takes it.
  `Commands` connects formatted commands with the kinds the API tells apart, and `Callbacks` is the
  linked callback list.
* **The hash table.** `HashTable`, `TableIterator` and `TableRuns`: bucket chains relinked in place,
  against a map.
* **Dynamic strings.** `SdsStrings` (five headers over one buffer), `Quoting` (quote and split command
  lines) and `Splitting` (split and join at a separator).

The recursive definitions that the methods are proved against have laws of their own, in the literal
bytes of the protocol and without naming the definitions' parts: `RespLaws` (numbers, every type byte,
bytes that start no reply), `FormatLaws` (formats as words of literal text and conversions), `QuoteLaws`
(lines as plain and quoted text between blanks, and lines that are refused), `HashLaws` and `AsyncLaws`.

User code is data: an environment lists what each invocation of a callback does, in the order of the
invocations, and in what order the two dictionaries list their keys at teardown. Sockets are data too:
events say what `read()`, `write()` and the connection check return. Statements about runs are for all
environments and all lists of events; an environment that names no order of the dictionaries at hand
belongs to no run, and such a run is cut off (`impossible`). A failing `assert()` is modelled as the end
of the run, as in a build with assertions on, and the state says which one it was (`failed`).

## Where code and documentation disagree

The model follows the code.

* `redisAsyncDisconnect()` is documented to flush the output and to run the callbacks of all remaining
  replies (`async.c:382-387`). Outside callbacks it looks at the list of replies only (`async.c:391`). If
  that list is empty, the context is released at once: unsent output is dropped, and subscriptions and
  commands issued while subscribed get NULL although their replies may be on the way
  (`AsyncFailures.DisconnectAtOnce`, `DisconnectFlushes`, and `AsyncCounterexamples.UnsentIsLost` for a
  run). If it is not, the disconnect is carried out by a later read, whose test at `async.c:452` only looks
  at the output buffer. Then the assertion at `async.c:370` fails when the read ends with a reply still
  outstanding (`AsyncFailures.CleanDisconnect`, `DisconnectThenRead`, and
  `AsyncCounterexamples.DisconnectDoesNotWait` for such runs); and when it does not fail, subscriptions
  and commands issued while subscribed get NULL here too: `AsyncFailures.DeferredDisconnect` says when
  such a read releases the context, what is invoked, and that nothing gets NULL only if no callback is
  pending any more, `AsyncCounterexamples.SubscriptionIsCutOff` is a run in which one is.
  `AsyncFailures.ReadEnds` says what holds of the state in which any read ends. The other assertions on
  this path have their own conditions: `async.c:493` in `AsyncFailures.UnaskedReply`, those on the shape
  of messages in `AsyncTheorems.MessageRouted`.
* A command issued while subscribed is said to have its error reply passed to its callback
  (`async.c:710-711`). An error reply goes to the first callback in the list of replies, or ends the
  connection if there is none (`async.c:485-491`), see `AsyncTheorems.ErrorGoes` and `ErrorsAreFatal`, and
  such a callback is not put into that list, but into one of its own, which gives up nothing for an error
  (`AsyncTheorems.InvalidGetsNoError`). So it never gets an error while it waits for its own reply. What
  is taken off that list stays in `cb`, though, which outlives the iterations (`async.c:444`) and which
  monitor mode puts into the list of replies at the end of a read (`async.c:458-459`). Hence the exact
  condition: the callback is given an error if and only if it was put back and is the first in the list of
  replies (`AsyncOrigins.InsideIsGivenError`, `PutBackAtEnd`), and without a monitor command only
  callbacks of commands issued outside subscriptions are given errors (`AsyncTheorems.ErrorsGoToReplies`,
  `AsyncOrigins.ErrorsBelong`). `AsyncCounterexamples` has a run in which the callback gets NULL and the
  connection ends (`InvalidCommandLost`), one in which a later monitor command gets the error
  (`InvalidCommandOvertaken`), and one in which the promise is kept because the callback was put back
  (`InvalidCommandAnswered`).
* A reply that nothing else claims runs the callback of the reply before it in the same read, because `cb`
  outlives the iterations: a pub/sub message for a name that is not registered, see
  `AsyncTheorems.MessageRouted` and `AsyncCounterexamples.StaleMessage` for a run. That may be the callback
  of a command issued while subscribed, which so gets an array: `AsyncOrigins.InsideIsGiven` is the
  condition for every reply, `AsyncCounterexamples.InvalidCommandGetsMessage` a run.
* Monitor mode puts the callback back that was taken last (`async.c:457-460`). After a read that brought
  replies this is the monitor callback, which so gets all of them (`AsyncLaws.MonitorRead`). After a read
  that brought none it is the empty local variable (`AsyncLaws.MonitorEmptyRead`), which takes the place of
  the monitor callback: `AsyncCounterexamples.WatcherIsLost` is a run in which that one is given one reply
  and then waits nowhere.
* A line that is not a number reads as -1, an array count below -1 makes an array that announces the
  count and has no elements, and the two bytes after a bulk string are not looked at
  (`hiredis.c:292-319`, `hiredis.c:463-502`, `hiredis.c:418-427`). The grammar keeps these readings, see
  `RespLaws.NumberMeans`, `BulkReplies` and `ArrayReplies`.

## Model

| member | source | states |
|---|---|---|
| Decimal.NumeralRoundTrip | include/windows/hiredis/hiredis.c:294-319 | reading the decimal text of any integer returns that integer |
| Decimal.LongLongStops | include/windows/hiredis/hiredis.c:294-319 | the number read is decided by the bytes before the first CR, whatever follows |
| Decimal.LongLongFits | include/windows/hiredis/sds.c:428-429 | every absolute value of 64 bits with a sign has at most 19 digits, so that its text, a sign and a NUL fit in 21 bytes |
| Decimal.IntLen | include/windows/hiredis/hiredis.c:674-683 | the length computed for a number is the length of its decimal text |
| Decimal.ReadLongLong | include/windows/hiredis/hiredis.c:294-319 | the loop over a buffer reads the number that stands before the CR, and -1 for anything else |
| Decimal.WriteBackwards | include/windows/hiredis/sds.c:436-442 | the digit loop leaves the decimal digits in reverse order and touches nothing else |
| Decimal.ReverseInPlace | include/windows/hiredis/sds.c:448-456 | the two-pointer loop reverses exactly the first l bytes in place |
| Decimal.Ll2Str | include/windows/hiredis/sds.c:429-458 | the array holds the decimal text of the value and a NUL, and the length returned is the text's |
| Resp.Crlf | include/windows/hiredis/hiredis.c:266-290 | the position of the first CR LF, or that there is none |
| Resp.ReplyStable | include/windows/hiredis/hiredis.c:623-671 | a reply or an error once recognised is not changed by bytes that arrive later |
| Resp.ReplyLeavesSuffix | include/windows/hiredis/hiredis.c:255-263 | what a reply leaves over is a suffix of the input |
| Resp.NoEarlyReply | include/windows/hiredis/hiredis.c:395-446 | no strict prefix of the bytes of a reply is taken for a reply |
| Resp.ReplyIsItsOwnBytes | include/windows/hiredis/hiredis.c:395-446 | a reply depends on nothing behind its last byte |
| Resp.NotMore | include/windows/hiredis/hiredis.c:623-671 | when more bytes complete an incomplete input, the reply ends inside the bytes that were added |
| Resp.ReplyFilled | include/windows/hiredis/hiredis.c:448-511 | every array that comes out has as many elements as were announced, at every level |
| Resp.ReplyDepth | include/windows/hiredis/hiredis.c:455-460 | no reply nests arrays deeper than the task stack allows |
| Resp.WireRoundTrip | include/windows/hiredis/hiredis.c:513-560 | every reply tree within the depth limit is read back from its serialization, whatever follows |
| Resp.WireAllRoundTrip | include/windows/hiredis/hiredis.c:448-511 | the serialized elements of an array are read back in order |
| Resp.WireTooDeep | include/windows/hiredis/hiredis.c:455-460 | an array marker below the limit gives the protocol error, for every tree that is too deep |
| Resp.WireStream | include/windows/hiredis/hiredis.c:623-671 | any concatenation of serialized replies is read as exactly those replies, with nothing left |
| Resp.StreamSplit | include/windows/hiredis/hiredis.c:591-671 | reading a stream in two parts gives the replies, the left-over and the error of reading it whole; errors are final |
| Resp.YieldsStream | include/windows/hiredis/hiredis.c:623-671 | replies read so far are the first ones of the whole stream |
| RespLaws.NumberMeans | include/windows/hiredis/hiredis.c:294-319 | a sign, decimal digits and a CR are read as the number of the digits with that sign; any other byte before the CR gives -1 |
| RespLaws.NoLeadingZero | include/windows/hiredis/sds.c:436-442 | the decimal text of a number has no leading zeros |
| RespLaws.LineReplies | include/windows/hiredis/hiredis.c:361-393 | + and - announce a status and an error, whose text is everything up to the first CR LF |
| RespLaws.IntegerReplies | include/windows/hiredis/hiredis.c:361-393 | : announces an integer, and every line is one |
| RespLaws.BulkReplies | include/windows/hiredis/hiredis.c:395-446 | $ announces a bulk string: nil for every negative or unreadable length, else that many bytes and two more, whichever; with fewer the reader waits |
| RespLaws.ArrayReplies | include/windows/hiredis/hiredis.c:448-511 | * announces an array: nil for -1 and unreadable counts, no elements for other counts below 1, and an error inside eight others |
| RespLaws.BadByteEnds | include/windows/hiredis/hiredis.c:519-540 | any other byte in place of a reply, or of an array element at any depth, ends the stream with that error, after any replies, which are read |
| RespLaws.NinthArrayEnds | include/windows/hiredis/hiredis.c:455-460 | so does an array that begins inside eight others that are not complete |
| Reader.PushAgrees | include/windows/hiredis/hiredis.c:489-500 | pushing a task for a non-empty array keeps the stack in step with the recursive grammar |
| Reader.PopAgrees | include/windows/hiredis/hiredis.c:336-359 | popping a full array keeps it in step |
| Reader.AdvanceAgrees | include/windows/hiredis/hiredis.c:336-359 | going on with the next element keeps it in step |
| Reader.SeekNewline | include/windows/hiredis/hiredis.c:266-290 | the nested loops find the first CR LF, looking at most at the NUL behind the input |
| Reader.RedisReader.constructor | include/windows/hiredis/hiredis.c:562-581 | a new reader is empty, without error and between replies |
| Reader.RedisReader.Feed | include/windows/hiredis/hiredis.c:591-621 | the bytes join the queue of unparsed bytes; refused after an error |
| Reader.RedisReader.Attach | include/windows/hiredis/hiredis.c:127-131 | a new object goes into the one slot of its parent that is next, and no other slot changes |
| Reader.RedisReader.Pop | include/windows/hiredis/hiredis.c:345-350 | an array whose last slot is filled is complete, spells out its reply, and is not written again |
| Reader.RedisReader.MoveToNextTask | include/windows/hiredis/hiredis.c:336-359 | afterwards the reply is complete or the next slot is empty and up next, the tasks below being full up to it |
| Reader.RedisReader.ProcessLineItem | include/windows/hiredis/hiredis.c:361-393 | a line is consumed and delivered, or nothing changes because the grammar needs more |
| Reader.RedisReader.ProcessBulkItem | include/windows/hiredis/hiredis.c:395-446 | the same for a bulk string, which is only taken when all of it is there |
| Reader.RedisReader.ProcessMultiBulkItem | include/windows/hiredis/hiredis.c:448-511 | the same for an array header; the depth limit gives the grammar's error |
| Reader.RedisReader.ProcessItem | include/windows/hiredis/hiredis.c:513-560 | every successful item shrinks the unread input, failure means the grammar asks for more or rejects |
| Reader.RedisReader.Compact | include/windows/hiredis/hiredis.c:656-662 | dropping consumed bytes changes nothing that is still to be parsed |
| Reader.RedisReader.ProcessItems | include/windows/hiredis/hiredis.c:647-654 | the loop ends where the grammar does: complete with its reply, waiting, or with its error |
| Reader.RedisReader.GetReply | include/windows/hiredis/hiredis.c:623-671 | the result is the next reply of the grammar on the unparsed queue as an object tree, with what it leaves over; errors are sticky |
| Feeding.Drain | include/windows/hiredis/hiredis.c:623-671 | calling the reader until it has nothing more gives all replies of the stream fed so far |
| Feeding.ReadAll | include/windows/hiredis/hiredis.c:591-671 | for every way of cutting a stream into feeds, drained after each, the objects given out spell out the replies of the whole stream, and the final error is its error |
| Format.FormatCommandArgv | include/windows/hiredis/hiredis.c:945-977 | the buffer of the precomputed size is filled exactly with the array of bulk strings and a NUL |
| Format.PipelineRoundTrip | include/windows/hiredis/hiredis.c:945-977 | any concatenation of formatted commands is read back as one array of bulk strings per command, equal to its arguments |
| Format.BulkLen | include/windows/hiredis/hiredis.c:688-690 | the length computed for an argument is the length of its bulk string |
| Format.StrTolNumeral | include/windows/hiredis/async.c:651-651 | strtol() on a printed length followed by CR gives the length |
| Format.NextArgumentFound | include/windows/hiredis/async.c:644-656 | an argument is found whole, with its length and the place behind it, whatever bytes it contains |
| Format.WalkRoundTrip | include/windows/hiredis/async.c:644-656 | walking over a formatted command gives exactly its arguments in order and then NULL |
| Format.Append | include/windows/hiredis/hiredis.c:713-755 | a literal or conversion appends its text to the current argument; an empty interpolation appends nothing |
| Format.Scan | include/windows/hiredis/hiredis.c:712-878 | scanning the format gives the arguments of the format split at spaces before substitution, and their total length |
| Format.FormatCommand | include/windows/hiredis/hiredis.c:692-903 | the bytes written are those of formatting the argument vector of the format up to its NUL, and fill the precomputed length |
| Format.ArgcIsTheFormats | include/windows/hiredis/hiredis.c:712-735 | the number of arguments depends on the format only, never on what is interpolated |
| Format.BinariesFormatArgv | include/windows/hiredis/hiredis.c:692-903 | a format of n times %b makes exactly the n arguments given |
| FormatLaws.FormatMeans | include/windows/hiredis/hiredis.c:704-878 | for every format of words made of literal text, %s, %b and %%, with any number of spaces between, before and after them, read up to its NUL: one argument per word, its pieces joined, %s being its argument up to the NUL, and a lone % at the end itself |
| FormatLaws.CommandBytes | include/windows/hiredis/hiredis.c:945-977 | a command is sent as * and the number of arguments, and $, the length and the bytes of each, in literal bytes |
| HashTable.GenHashFunction | include/windows/hiredis/dict.c:56-62 | the loop with its shift computes the hash modulo 2^32 |
| HashLaws.HashMeans | include/windows/hiredis/dict.c:56-62 | reduced to 32 bits at every byte, the hash is 5381 * 33^n plus the bytes as digits to base 33, reduced once |
| HashTable.MaskIsRemainder | include/windows/hiredis/dict.c:331-331 | masking with a power of two less one is the remainder |
| HashTable.Dict.BucketIsRemainder | include/windows/hiredis/dict.c:329-331 | in a valid table below the cap the bucket of a key is its hash modulo the number of buckets |
| HashTable.NextPower | include/windows/hiredis/dict.c:309-318 | the smallest power of two from the initial size on that is large enough; the largest sizes are capped |
| HashTable.MoveEntry | include/windows/hiredis/dict.c:117-126 | moving one entry takes it out of its old chain and puts it in front of its new bucket, keeping every other |
| HashTable.MoveChain | include/windows/hiredis/dict.c:115-127 | a whole chain is moved entry by entry, and the count of entries left goes down by its length |
| HashTable.MoveAll | include/windows/hiredis/dict.c:105-129 | every entry is moved exactly once although the loop stops when the count reaches zero |
| HashTable.Dict.constructor | include/windows/hiredis/dict.c:76-88 | a new table is the empty map |
| HashTable.Dict.Find | include/windows/hiredis/dict.c:246-259 | an entry is returned exactly when the map has the key, and it carries its value |
| HashTable.Dict.Expand | include/windows/hiredis/dict.c:91-135 | a larger table holds the same map in the same entries; a smaller one is refused |
| HashTable.Dict.ExpandIfNeeded | include/windows/hiredis/dict.c:298-306 | afterwards there is at least one bucket more than entries, up to the cap, and the map is unchanged |
| HashTable.Dict.KeyIndex | include/windows/hiredis/dict.c:323-341 | -1 exactly for a key that is there, its bucket otherwise; the map is unchanged |
| HashTable.Dict.Add | include/windows/hiredis/dict.c:138-157 | a new key is added, an old one refused, and the map is otherwise unchanged |
| HashTable.Dict.Replace | include/windows/hiredis/dict.c:163-182 | the key has the value afterwards; tells whether it was new |
| HashTable.Dict.Delete | include/windows/hiredis/dict.c:185-213 | the key is gone, tells whether it was there, and every other entry stays where it was |
| TableIterator.FlattenVisits | include/windows/hiredis/dict.c:271-289 | the chains one after the other list every entry of the table once |
| TableIterator.DictIterator.Next | include/windows/hiredis/dict.c:271-289 | gives the next entry of that list, NULL at its end |
| TableIterator.DeleteReturned | include/windows/hiredis/dict.c:282-284 | deleting the entry just returned leaves the rest of the iteration as it was |
| TableIterator.VisitAll | include/windows/hiredis/dict.c:261-289 | a whole iteration gives every entry present at its start exactly once, also when the caller deletes any of them right after it was returned |
| TableRuns.Apply | include/windows/hiredis/dict.c:138-259 | each of add, replace, delete and find answers as the map does |
| TableRuns.Run | include/windows/hiredis/dict.c:91-259 | every sequence of operations from the empty table gives the map's answers |
| SdsStrings.Sds.SetLen | include/windows/hiredis/sds.h:177-199 | the header holds the length exactly when it is below the width of its type |
| SdsStrings.Sds.SetAlloc | include/windows/hiredis/sds.h:244-263 | the same for the allocation, which the smallest header does not have |
| SdsStrings.ReqTypeIsNarrowest | include/windows/hiredis/sds.c:57-68 | the header chosen holds the length, and no narrower one would be chosen: five bits are used up, of the wider ones all but the largest value |
| SdsStrings.Sds.constructor | include/windows/hiredis/sds.c:81-135 | the new string holds the bytes given, or zeros, ends in NUL, and its header is wide enough |
| SdsStrings.Sds.MakeRoomFor | include/windows/hiredis/sds.c:194-237 | the contents stay and the room is there, also when the header changes; the allocation follows the growth policy; the header is the one for the new allocation |
| SdsStrings.Sds.RemoveFreeSpace | include/windows/hiredis/sds.c:245-269 | the contents stay and there is no free space |
| SdsStrings.Sds.GrowZero | include/windows/hiredis/sds.c:358-369 | zeros are appended up to the length; a shorter length changes nothing |
| SdsStrings.Sds.CatLen | include/windows/hiredis/sds.c:376-385 | the contents are the old ones followed by the bytes given |
| SdsStrings.Sds.CpyLen | include/windows/hiredis/sds.c:405-414 | the contents are the bytes given |
| SdsStrings.Sds.Range | include/windows/hiredis/sds.c:719-745 | the contents are the bytes between the two positions, negative ones counting from the end, in the same buffer |
| SdsStrings.RangeInside | include/windows/hiredis/sds.c:719-745 | positions inside the string count from either end and both are part of the range |
| SdsStrings.RangeOutside | include/windows/hiredis/sds.c:719-745 | an end behind the string is its last byte, positions before it are its first byte, and ranges starting behind the string or behind their end are empty |
| SdsStrings.PerformAll | include/windows/hiredis/sds.c:194-414 | any sequence of operations leaves a valid string that holds what the same operations make of a plain byte string |
| Quoting.CatRepr | include/windows/hiredis/sds.c:863-886 | the quoted form of the bytes is appended |
| QuoteLaws.EscapeMeans | include/windows/hiredis/sds.c:863-886 | quotes and backslashes are escaped, the five named control bytes have their letters, other printable bytes are themselves, all others \x and two lower-case digits |
| Quoting.EscapesRead | include/windows/hiredis/sds.c:955-989 | inside quotes, the escaped form of any byte string is read back as that string |
| Quoting.GetToken | include/windows/hiredis/sds.c:949-1026 | the loop over quoting modes reads the token that the recursive definition reads, or fails with it |
| Quoting.SplitArgs | include/windows/hiredis/sds.c:938-1046 | terminates on every line and gives the tokens of the recursive definition, or fails with it |
| Quoting.QuoteRoundTrip | include/windows/hiredis/sds.c:863-1046 | quoted strings joined by spaces split into exactly those strings |
| QuoteLaws.LineMeans | include/windows/hiredis/sds.c:938-1045 | every line of arguments, plain text that may end in double-quoted text with escapes or in single-quoted text, with blanks between them, is split into what they stand for |
| QuoteLaws.GluedFails | include/windows/hiredis/sds.c:980-983 | after any arguments, a closing quote followed by a byte that is no blank makes the line invalid |
| QuoteLaws.OpenFails | include/windows/hiredis/sds.c:984-987 | so does a quote left open |
| Quoting.NoNul | include/windows/hiredis/sds.c:863-886 | a line of quoted strings has no NUL in it, so the splitter sees all of it |
| Splitting.JoinTokens | include/windows/hiredis/sds.c:800-837 | the tokens joined with the separator are the string |
| Splitting.TokensAreClean | include/windows/hiredis/sds.c:823-832 | no token contains the separator, nor makes one with the separator behind it |
| Splitting.TokensUnique | include/windows/hiredis/sds.c:823-832 | they are the only clean parts that join to the string |
| Splitting.JoinSds | include/windows/hiredis/sds.c:1085-1094 | the loop joins the parts with the separator between them |
| Splitting.MakeRoom | include/windows/hiredis/sds.c:814-822 | there is room for the next token and the last one, and the tokens so far stay |
| Splitting.SplitLen | include/windows/hiredis/sds.c:800-845 | the tokens of the string for every separator, none for the empty string, and an error for the empty separator |
| Callbacks.CallbackList.Push | include/windows/hiredis/async.c:258-278 | the callback joins the end of the list; head, tail and links stay consistent |
| Callbacks.CallbackList.Shift | include/windows/hiredis/async.c:280-294 | the first callback leaves the list, an empty list gives an error and stays empty |
| Commands.KindsMean | include/windows/hiredis/async.c:677-708 | a command is a subscription, unsubscription or monitor command exactly when its first argument, up to its first CR LF if it has one, is the word in any case, with a p before it for patterns, and a subscription has a name |
| Commands.KindsInLetters | include/windows/hiredis/async.c:679-704 | the same with the letters of the words written out, each in either case |
| Commands.FirstArgument | include/windows/hiredis/async.c:677-682 | the first step over a formatted command finds its first argument, and whether another one follows |
| Commands.NextName | include/windows/hiredis/async.c:689-689 | each further step finds the next name, and the last one that there is none |
| Commands.Inspect | include/windows/hiredis/async.c:676-682 | the kind of the command and where its names are, from its bytes alone |
| Async.ActsKeep | include/windows/hiredis/async.c:352-358 | nothing user code does inside a callback frees the context, reads input or takes back a request, and while commands are refused it changes nothing else |
| Async.CallbackKeeps | include/windows/hiredis/async.c:296-303 | running a callback is one invocation, after which the in-callback flag is clear; while commands are refused no list can grow |
| AsyncLaws.ActsInOrder | include/windows/hiredis/async.c:296-303 | what user code does takes effect in its order |
| AsyncLaws.EnlistMeans | include/windows/hiredis/async.c:685-716 | the callback of a subscription is found under each of its names and no other, that of another command at the end of one of the lists, and what else there is stays |
| AsyncLaws.CommandMeans | include/windows/hiredis/async.c:661-723 | inside callbacks and outside, a command is refused if and only if a disconnect or the end was asked for, or it is an unsubscription outside subscriptions; every other one, of whatever kind, joins the output |
| AsyncLaws.RefusedForever | include/windows/hiredis/async.c:670-671 | once either was asked for, no later command of the run is accepted |
| AsyncFailures.CallbackRequests | include/windows/hiredis/async.c:352-393 | after a callback either request is there if and only if it was before or the callback made it |
| AsyncRuns.DrainRuns | include/windows/hiredis/async.c:312-318 | a drain loop ends, runs every waiting callback of its list once, in order and with NULL, and leaves the list empty |
| AsyncRuns.TableRuns | include/windows/hiredis/async.c:320-331 | going through a dictionary runs each of its callbacks once with NULL |
| AsyncRuns.PendingRuns | include/windows/hiredis/async.c:306-331 | teardown runs everything pending once with NULL and nothing the callbacks try adds to it |
| AsyncRuns.ProcessSteps | include/windows/hiredis/async.c:442-519 | processing replies is a number of deliveries, each with what its callback does, and then nothing more or the end of the context, during which nothing is read |
| AsyncRuns.SessionSteps | include/windows/hiredis/async.c:296-723 | every run, for all events and all user code, is a sequence of the small steps, each taken only when it is allowed |
| AsyncPromises.LanesStep | include/windows/hiredis/async.c:258-294 | every step keeps what was pushed equal to what was taken followed by what is waiting, for both lists |
| AsyncPromises.SubsStep | include/windows/hiredis/async.c:395-440 | every step keeps the dictionaries equal to the fold of registrations and unsubscriptions |
| AsyncPromises.OutputStep | include/windows/hiredis/hiredis.c:1214-1257 | every step keeps the bytes written followed by the buffer equal to the commands appended |
| AsyncPromises.InputStep | include/windows/hiredis/hiredis.c:1150-1173 | every step keeps the replies taken and the bytes held what there is to read in the bytes received |
| AsyncPromises.PlainStep | include/windows/hiredis/async.c:442-519 | without subscriptions and monitoring every step keeps the i-th callback taken paired with the i-th reply, NULL from where replies end, and the invocations equal to those taken |
| AsyncPromises.LastRegistrationWins | include/windows/hiredis/async.c:689-695 | a name is in the dictionary exactly when the last event about it is a registration, with that callback |
| AsyncPromises.SessionKeeps | include/windows/hiredis/async.c:296-723 | the whole invariant holds after any events |
| AsyncTheorems.ExactlyOnce | include/windows/hiredis/async.c:442-519 | in every run without subscriptions and monitoring, however it ends: the callbacks of the first accepted commands have been invoked, each once, in order, the i-th with the i-th reply; they are as many as replies were read while the connection is up, and all, the unanswered ones with NULL, once the context is released |
| AsyncTheorems.ReleasedOnce | include/windows/hiredis/async.c:306-358 | at any moment of any run, callbacks included: at most one teardown and one release so far, the next step does either only outside callbacks, and a released context has nothing waiting |
| AsyncTheorems.LiveIsNotTorn | include/windows/hiredis/async.c:306-380 | a run that goes on, or ends in a failed assertion, has not begun a teardown, and that assertion does not hold |
| AsyncTheorems.OutputConserved | include/windows/hiredis/hiredis.c:1214-1318 | over every run, bytes written followed by the buffer are the appended commands |
| AsyncLaws.WrittenMeans | include/windows/hiredis/hiredis.c:1229-1253 | as many bytes leave the front of the buffer as were reported written, at most all, and no others |
| AsyncLaws.SentIsReported | include/windows/hiredis/hiredis.c:1214-1257 | over every run the number of bytes sent is the sum of what the write events reported, each at most the buffer before it, and they are the first bytes of the accepted commands |
| AsyncTheorems.MessageRouted | include/windows/hiredis/async.c:395-440 | at any moment of any run a message invokes the callback registered last for its name, one for an unknown name the callback of the reply before; unsubscriptions remove the name and end the mode; an assertion fails exactly for malformed messages |
| AsyncLaws.UnsubscribeMeans | include/windows/hiredis/async.c:405-424 | with the letters written out: a pattern's word begins with a p, and unsubscribe and punsubscribe, in any case and up to a NUL, are what ends a subscription |
| AsyncLaws.UnclaimedFirst | include/windows/hiredis/async.c:444-500 | a reply that nobody waits for invokes nothing if it is the first of its read |
| AsyncTheorems.FailRuns | include/windows/hiredis/async.c:362-380 | any connection error invokes everything pending once with NULL and frees the context once |
| AsyncLaws.ReadableMeans | include/windows/hiredis/async.c:546-573 | a connection that can be read ends if and only if there was an error before, read() fails or the stream has ended, with everything pending invoked with NULL; else exactly the bytes that came join the input |
| AsyncLaws.WritableMeans | include/windows/hiredis/async.c:575-600 | one that can be written to ends if and only if there was an error before, or there was something to write and write() fails; else exactly the bytes written leave the buffer |
| AsyncLaws.CompletedMeans | include/windows/hiredis/async.c:620-638 | a write that completed elsewhere takes its bytes off the buffer whatever error there is |
| AsyncLaws.UnconnectedMeans | include/windows/hiredis/async.c:524-541 | before it is connected, every event on the socket gives the connection up on an error, keeps the error of the check while connecting goes on, and else goes on as on a connected one |
| AsyncLaws.BrokenStreamMeans | include/windows/hiredis/async.c:442-519 | a protocol error, or an error reply nobody waits for, gives the connection up after the replies before it were delivered |
| AsyncTheorems.ErrorGoes | include/windows/hiredis/async.c:469-500 | an error reply is given to the first callback in the list of replies, and ends the connection if and only if there is none |
| AsyncTheorems.ErrorsAreFatal | include/windows/hiredis/async.c:469-491 | an error reply without a waiting regular callback gives everything pending NULL and releases the context, also while subscribed |
| AsyncTheorems.ErrorsGoToReplies | include/windows/hiredis/async.c:442-519 | in every run, in every mode, the invocations with an error reply are, in order, those of the callbacks taken off the list of replies with one; without a monitor command these are callbacks of the first regular commands accepted outside subscriptions |
| AsyncTheorems.InvalidGetsNoError | include/windows/hiredis/async.c:434-437 | at any moment of any run no callback was taken off the list of commands issued while subscribed for an error reply or an array; it may be given one later, see AsyncOrigins |
| AsyncTheorems.InvalidAnswered | include/windows/hiredis/async.c:469-499 | the first callback of that list is taken off it for the next reply if and only if no regular one waits, the context is subscribed, and the reply is neither an error nor an array |
| AsyncOrigins.StepMarks | include/windows/hiredis/async.c:258-519 | every step keeps each callback in a list, in a dictionary, in the local variable and among the invocations paired with the command it was passed with, and keeps commands issued while subscribed out of the list of replies unless they were put back |
| AsyncOrigins.ErrorsBelong | include/windows/hiredis/async.c:469-517 | at any moment of any run every callback invoked was passed with an accepted command; if it was given an error, that is a regular one issued outside subscriptions, or, in monitor mode only, a monitor command or one that was put back |
| AsyncOrigins.InsideIsGiven | include/windows/hiredis/async.c:444-517 | at any moment of any run the callback of a command issued while subscribed is given the next reply if and only if it was put back and is the first in the list of replies, or that list is empty and it is either the first of its own list and the reply neither an error nor an array, or the callback of the reply before on which this one falls back |
| AsyncOrigins.InsideIsGivenError | include/windows/hiredis/async.c:709-712 | it is given an error if and only if it was put back and is the first in the list of replies |
| AsyncOrigins.PutBackAtEnd | include/windows/hiredis/async.c:457-460 | a callback is put back exactly at the end of a read in monitor mode that no disconnect ends, and it is the one taken for the last reply of that read |
| AsyncFailures.CleanDisconnect | include/windows/hiredis/async.c:362-371 | after a disconnect was asked for, in every mode and whatever callbacks do: the assertion that nothing is pending fails if and only if all is written and the replies at hand are fewer than the callbacks waiting, without a protocol error and without one of the callbacks they go to freeing the context |
| AsyncFailures.DisconnectThenRead | include/windows/hiredis/async.c:546-573 | the same for the next read of any run in which a disconnect was asked for, with the bytes it brings |
| AsyncFailures.DeferredDisconnect | include/windows/hiredis/async.c:452-455 | after a disconnect was asked for, before the read or by a callback in it, in every mode: the replies at hand are delivered, the first ones to the callbacks waiting; then the read releases the context without an error if and only if a callback freed it or everything is written, nothing is left to read and the list of replies is empty; it invokes everything pending with NULL, which is nothing if and only if no pending callback, in any list or dictionary, has a function |
| AsyncLaws.LastReplyDisconnects | include/windows/hiredis/async.c:388-393 | a callback that asks for a disconnect on the only outstanding reply, with everything written, has the context released without an error by that read |
| AsyncFailures.FreedByCallback | include/windows/hiredis/async.c:503-507 | a callback that frees the context ends the read at once: no reply behind is read, and everything pending is invoked with NULL |
| AsyncLaws.FreeMeans | include/windows/hiredis/async.c:354-359 | outside callbacks the context is freed at once whatever is pending, which is invoked with NULL |
| AsyncFailures.ReadEnds | include/windows/hiredis/async.c:442-519 | in every mode and whatever callbacks do, each of the assertions fails exactly when the state in which the read ends violates it, and a read that fails none leaves nothing to read |
| AsyncFailures.UnaskedReply | include/windows/hiredis/async.c:492-493 | in every run without subscriptions and monitoring the assertion that the context is subscribed or monitoring fails if and only if the stream brings a reply more than commands were accepted, that reply is no error, and nothing ended the run before |
| AsyncCounterexamples.DisconnectDoesNotWait | include/windows/hiredis/async.c:382-393 | for every command, a disconnect asked for before its reply, and a read that brings nothing or less than a reply, end in the failing assertion if and only if the callback of the command is in the list of replies |
| AsyncFailures.DisconnectAtOnce | include/windows/hiredis/async.c:388-393 | a disconnect outside callbacks releases the context if and only if the list of replies is empty, giving NULL to everything pending, and otherwise changes nothing but the request; output is left as it is |
| AsyncFailures.DisconnectFlushes | include/windows/hiredis/async.c:382-393 | when it does, all accepted commands have been sent if and only if the output buffer was empty, and nothing is invoked if and only if no pending callback has a function |
| AsyncCounterexamples.UnsentIsLost | include/windows/hiredis/async.c:388-393 | a run from the start in which a subscription is never sent and its callback is invoked with NULL |
| AsyncCounterexamples.SubscriptionIsCutOff | include/windows/hiredis/async.c:448-455 | a run from the start in which a command and a subscription are sent, a disconnect waits for the reply to the command only, and the callback of the subscription is invoked with NULL |
| AsyncCounterexamples.InvalidCommandLost | include/windows/hiredis/async.c:709-712 | a run from the start in which a command issued while subscribed gets an error reply and its callback is invoked with NULL |
| AsyncCounterexamples.InvalidCommandOvertaken | include/windows/hiredis/async.c:704-712 | a run from the start in which its error goes to the callback of a later monitor command, and its own goes on waiting |
| AsyncCounterexamples.InvalidCommandAnswered | include/windows/hiredis/async.c:457-470 | a run from the start, with a monitor command, in which the callback of such a command is given another reply, is put back, and is given the error reply |
| AsyncCounterexamples.StaleMessage | include/windows/hiredis/async.c:444-500 | a run from the start in which the callback of one channel is invoked with the message for another that nobody subscribed to |
| AsyncCounterexamples.InvalidCommandGetsMessage | include/windows/hiredis/async.c:444-500 | a run from the start in which the callback of a command issued while subscribed is invoked with a status and then with a message for a channel without a subscriber |
| AsyncLaws.MonitorRead | include/windows/hiredis/async.c:442-519 | in monitor mode a read that brings replies gives all of them to the callback waiting, which waits again afterwards |
| AsyncLaws.MonitorEmptyRead | include/windows/hiredis/async.c:457-460 | a read that brings none puts an empty callback behind whatever waits |
| AsyncCounterexamples.WatcherIsLost | include/windows/hiredis/async.c:457-460 | a run from the start in which the empty callback takes the place of the monitor callback |
| AsyncContexts.AsyncContext.constructor | include/windows/hiredis/async.c:118-157 | a new context is in the initial state |
| AsyncContexts.AsyncContext.Register | include/windows/hiredis/async.c:688-695 | the loop over the names registers the callback for each of them |
| AsyncContexts.AsyncContext.Enlist | include/windows/hiredis/async.c:685-716 | the callback goes to the dictionary, the list of replies or the list of invalid commands, by kind and mode |
| AsyncContexts.AsyncContext.AsyncCommand | include/windows/hiredis/async.c:661-723 | refused exactly while disconnecting or freeing, or for an unsubscription outside subscriptions; otherwise registered and appended |
| AsyncContexts.AsyncContext.RunCallback | include/windows/hiredis/async.c:296-303 | the flags, lists and output afterwards are what the user's actions make of them |
| AsyncContexts.AsyncContext.Shift | include/windows/hiredis/async.c:280-294 | the first callback leaves its list |
| AsyncContexts.AsyncContext.Drain | include/windows/hiredis/async.c:312-318 | the loop does what draining the list does |
| AsyncContexts.AsyncContext.DrainTable | include/windows/hiredis/async.c:320-332 | the loop does what going through the dictionary does |
| AsyncContexts.AsyncContext.Teardown | include/windows/hiredis/async.c:306-346 | runs everything pending and releases the context |
| AsyncContexts.AsyncContext.DisconnectNow | include/windows/hiredis/async.c:362-380 | tears down, refusing commands after an error, or fails the assertion |
| AsyncContexts.AsyncContext.AsyncDisconnect | include/windows/hiredis/async.c:388-393 | immediate outside callbacks when nothing is pending, else a request |
| AsyncContexts.AsyncContext.AsyncFree | include/windows/hiredis/async.c:354-359 | immediate outside callbacks, else a request |
| AsyncContexts.AsyncContext.GetMessageCallback | include/windows/hiredis/async.c:395-433 | finds the callback of a message, removing it and leaving subscribed mode as an unsubscription says |
| AsyncContexts.AsyncContext.Route | include/windows/hiredis/async.c:469-499 | finds where a reply goes: a callback, nowhere, or a failing assertion |
| AsyncContexts.AsyncContext.Dispatch | include/windows/hiredis/async.c:448-517 | one turn of the loop over replies |
| AsyncContexts.AsyncContext.ProcessCallbacks | include/windows/hiredis/async.c:442-519 | the loop over replies ends, in the state that processing all of them gives |
| AsyncContexts.AsyncContext.HandleConnect | include/windows/hiredis/async.c:524-541 | connected, still in progress with the error kept, or torn down |
| AsyncContexts.AsyncContext.HandleRead | include/windows/hiredis/async.c:546-573 | what a readable socket does to the context |
| AsyncContexts.AsyncContext.HandleWrite | include/windows/hiredis/async.c:575-600 | what a writable socket does to it; done exactly when the buffer is empty |
| AsyncContexts.AsyncContext.Write | include/windows/hiredis/hiredis.c:1214-1240 | the bytes written leave the front of the buffer, an error now or before ends the connection; done exactly when the buffer is empty |
| AsyncContexts.AsyncContext.HandleWritePrep | include/windows/hiredis/async.c:606-618 | the connection check before a write that completes elsewhere |
| AsyncContexts.AsyncContext.HandleWriteComplete | include/windows/hiredis/async.c:620-638 | the bytes of such a write leave the buffer, whatever error the context has; done exactly when it is empty |
| AsyncContexts.RunSession | include/windows/hiredis/async.c:296-723 | a context object taken through any happenings ends in the state of the run that the theorems are about |

## Left out

- Widths: lengths, counts and decimal values are unbounded integers, except for the header widths of dynamic strings and the 32-bit hash; overflow of `int` and `long long` is not modelled, but for the negation of the least value in `sdsll2str()`, which wraps.
- Memory: allocation always succeeds; releasing objects, custom reply functions and `dictRelease` are not modelled.
- Format.FormatCommand: states the result for formats of literals, spaces, `%s`, `%b` and `%%`; the printf conversions that are handed to the C library are not modelled.
- Format.Append: the same formats as Format.FormatCommand.
- Format.Scan: the same formats as Format.FormatCommand.
- Format.ArgcIsTheFormats: the same formats as Format.FormatCommand.
- Sockets, timeouts, blocking contexts and connecting (`net.c`) are events with given outcomes.
- AsyncTheorems.ExactlyOnce: leaves out runs with monitor mode, which puts the local callback back on every empty read; such runs are in the model and in the other theorems.
- AsyncContexts.AsyncContext: its callback lists, dictionaries, output buffer and reader are sequences and maps that its methods reassign; the linked list, hash table, string and reader objects are proved against the same sequences and maps on their own, and aliasing between them is not modelled.
- AsyncContexts.AsyncContext.RunCallback: what user code does in a callback is a list of commands, disconnect and free requests; the connect and disconnect callbacks and the event library hooks are not modelled.
- Messages that are not well formed reach an assertion or memory outside the array; the model treats both as the end of the run.
- `sdstrim`, `sdsIncrLen`, case mapping, comparison, character mapping and the printf-like string functions, which add little.
- The logger, JSON, YAML, protobuf, curl and MySQL headers and the account tools of the repository.
