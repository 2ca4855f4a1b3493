# EzBake C++ libraries: models and proofs

This project models the parts of the EzBake C++ platform libraries whose correctness rests on arguments over all
inputs, all runs or all reachable states, and proves those arguments. `dafny verify dfyconfig.toml` checks everything.

| files | what they model |
|---|---|
| `VisibilityText.dfy`, `Visibility.dfy`, `VisibilityCases.dfy` | visibility expressions: the textual rewrite of markings, the backtracking grammar, the evaluator, and texts outside the documented form |
| `Json.dfy`, `JsonRoundTrip.dfy`, `JsonInput.dfy`, `ProxyToken.dfy` | picojson's serializer and parser, and the proxy token's JSON form on top of it |
| `JsonUnicode.dfy`, `JsonLexical.dfy`, `JsonGrammar.dfy`, `JsonLayout.dfy` | which texts the parser accepts and what they mean, down to UTF-8, and how printed values look |
| `ZkProtocol.dfy`, `ZkSafety.dfy`, `ZkErrors.dfy`, `ZkHandle.dfy` | the ZooKeeper client's request queues, reply matching, error clean-up and shutdown, as interleaved critical sections |
| `Framing.dfy`, `FrameReader.dfy`, `Connection.dfy` | length-prefixed packets under partial sends and receives, and both ends of a connection |
| `Jute.dfy`, `JuteCodec.dfy`, `JuteLayout.dfy`, `JuteArchive.dfy` | the jute binary archive for every schema, and its bytes |
| `WatchManager.dfy` | one-shot watches |
| `Properties.dfy`, `PropertyLines.dfy` | the property file parser, and what each line of a file means |
| `LruList.dfy`, `LruMeaning.dfy`, `LruCache.dfy`, `LruTimed.dfy` | the LRU multimap cache and its timed form |
| `PathText.dfy`, `PathCreation.dfy` | discovery paths and their creation, synchronous and asynchronous |
| `Base64.dfy`, `Base64Format.dfy` | base64 (RFC 4648 section 4) |
| `FrameBuffer.dfy` | the framed transport's growing buffer |
| `Bytes.dfy`, `Common.dfy` | bytes and 32-bit integers, and what several components share |

Code that works step by step is modelled by methods with loops, mostly in classes, and each such method is proved equal
to a function of its inputs or of the old state; the theorems are about those functions. The runs of the ZooKeeper
client are sequences of steps, each one critical section of the application threads, the I/O thread, the completion
thread, the server or the network.

Where the code falls short of what it is for, the model follows the code:

- A marking that occurs inside `ezbTezb` or `ezbFezb` can make the markings processed before it be read wrongly.
  `Visibility.EvaluatesRightlyIff` gives the exact condition on the markings, `Visibility.ClashThrows` a family of inputs
  that throw.
- A marking behind a space is not found, because the text searched for markings is shifted without being cut: it is read
  as a literal of its own whatever the authorisations are (`VisibilityCases.SpacedMarking`). A caret separates markings
  but is no operator (`VisibilityCases.CaretIsRefused`). What follows a semicolon is never looked at, although its markings
  are rewritten too.
- The JSON parser accepts more numbers than RFC 8259: leading zeros, no digit before or behind the point
  (`JsonLexical.NumeralReads`, `JsonLexical.AcceptedNumeral`).
- A backslash in a property key before an unlisted character is never passed. `Properties.EndsIff` says on which texts the
  loop ends. What the parser calls a tab is the character 0x08.
- A value broken by a backslash before CR LF ends there, though LF and CR continue it. `Properties.ContinuesIff` gives the
  exact condition on the break.
- `unbase64` writes behind its buffer when a text is padded although its length does not allow for it, for example
  `AAAAA=`. `Base64.WritesAsAnnouncedIff` gives the exact condition for all lengths. For two characters of padding alone
  the announced size is negative, so the allocation fails.
- A string read with a negative length is not written back as it came. `JuteCodec.Reencodes` gives the exact condition,
  `JuteCodec.NegativeLengthIsLost` an input.
- `add_completion` frees a completion once `close_requested` is set, but the `zoo_a` functions still answer Ok and the
  callback never runs: the result code 2 is positive (zookeeper_c.cc, lines 1742-1755 for one), and the creating function
  does not look at it at all (lines 1707-1717). `ZkSafety.CalledOnceIff` says for every request of a run which it is,
  `ZkSafety.OkButNeverCalled` shows one.
- When the node to be created has children, the asynchronous delegate reports nothing: `at()` throws inside the
  callback. `PathCreation.CreatePathAsync` says exactly when, `PathCreation.SilentExample` shows it.
- The framed buffer can grow to 2^31 bytes, one more than its limit check suggests (`FrameBuffer.BoundIsReached`); the
  announced size still fits.

## Model

| member | source | states |
|---|---|---|
| VisibilityText.InsertMarking | security/permission-utils/src/main/cpp/ezbake_visibility.cpp:167-174 | a piece goes where the comparator "at least as long" puts it; the set stays longest first, without duplicates |
| VisibilityText.GetMarkingsFromExpression | security/permission-utils/src/main/cpp/ezbake_visibility.cpp:176-195 | the markings are exactly the non-empty pieces between separators, each once, longest first; spaces are moved, not erased |
| VisibilityText.TokenizeIsSeparated | security/permission-utils/src/main/cpp/ezbake_visibility.cpp:185-192 | splitting a text into separators and markings loses nothing: rendering the pieces gives the text back |
| VisibilityText.TokenizeRender | security/permission-utils/src/main/cpp/ezbake_visibility.cpp:185-192 | a rendered token list splits back into itself |
| VisibilityText.VisAuthToParsable | security/permission-utils/src/main/cpp/ezbake_visibility.cpp:197-217 | the text is rewritten by some admissible order of its own markings; one semicolon is added unless it ends in one |
| VisibilityText.ReplaceAcrossSeparator | security/permission-utils/src/main/cpp/ezbake_visibility.cpp:204-210 | a textual replacement never reaches across a separator |
| VisibilityText.RewriteIsTokenwise | security/permission-utils/src/main/cpp/ezbake_visibility.cpp:204-210 | the whole replace loop acts token by token, for every text and every admissible order |
| VisibilityText.RewriteOfMarking | security/permission-utils/src/main/cpp/ezbake_visibility.cpp:167-210 | a marking survives until its own turn, because longer ones cannot occur in it; from then on only its literal is rewritten |
| VisibilityText.RewriteOfClearMarking | security/permission-utils/src/main/cpp/ezbake_visibility.cpp:197-210 | where no marking but the first one processed occurs inside a truth literal, each marking becomes exactly the literal saying whether it is authorised |
| Visibility.OrSound | security/permission-utils/src/main/cpp/ezbake_visibility.cpp:139-153 | whatever the backtracking grammar with its expectation points accepts is a tree of the grammar and the tokens it consumed |
| Visibility.OrComplete | security/permission-utils/src/main/cpp/ezbake_visibility.cpp:139-153 | the ordered choices find every tree of the grammar: its tokens parse back to it, whatever follows |
| Visibility.OrFollows | security/permission-utils/src/main/cpp/ezbake_visibility.cpp:139-153 | the character-level parser, with its skipper and lexemes, agrees with the token-level one |
| Visibility.ParseDecides | security/permission-utils/src/main/cpp/ezbake_visibility.cpp:239-251 | parsing the terminated tokens succeeds exactly on token lists of trees, and finds that tree |
| Visibility.PrintParse | security/permission-utils/src/main/cpp/ezbake_visibility.cpp:139-160 | every abstract expression over words, printed with the parentheses the grammar needs, parses back to itself |
| Visibility.PipelineEvaluates | security/permission-utils/src/main/cpp/ezbake_visibility.cpp:197-251 | for any text without spaces and semicolons, whatever its markings: the value of its tree with markings read as rewritten, or an error when it has none |
| Visibility.PipelineMeaning | security/permission-utils/src/main/cpp/ezbake_visibility.cpp:100-260 | under the same condition the two-stage pipeline means "marking is in auths", for every expression and every admissible order |
| Visibility.PrintedExpressionMeaning | security/permission-utils/src/main/cpp/ezbake_visibility.cpp:100-260 | end to end, for names of any characters but separators and spaces: a printed expression evaluates to its own truth value and never throws |
| Visibility.EvaluateVisibilityExpression | security/permission-utils/src/main/cpp/ezbake_visibility.cpp:220-260 | empty expression true, empty auths false; any other text without spaces and semicolons: the value of its tree with markings as rewritten in some admissible order, its meaning where that order leaves the literals alone, and an error when it is no expression; on the documented domain the meaning outright; with semicolons, the same of what stands before the first one; with spaces, the rewrite of the markings found in the shifted text |
| Visibility.StatementOutcome | security/permission-utils/src/main/cpp/ezbake_visibility.cpp:197-246 | with a semicolon in the text, at its end or before: the outcome is that of what stands before the first one, with the markings of the whole text rewritten |
| VisibilityCases.CaretIsRefused | security/permission-utils/src/main/cpp/ezbake_visibility.cpp:139-185 | a caret separates markings but no expression has one: such a text is an error |
| VisibilityCases.MovedSpaces | security/permission-utils/src/main/cpp/ezbake_visibility.cpp:176-185 | spaces are taken out without shortening the text, so its end stands there twice |
| VisibilityCases.SpacedMarking | security/permission-utils/src/main/cpp/ezbake_visibility.cpp:176-260 | a marking behind a space is read as a literal of its own, whatever the authorisations are |
| VisibilityCases.CastIff | security/permission-utils/src/main/cpp/ezbake_visibility.cpp:100-111 | a word is a truth value if and only if it is zeros and then one 0 or 1 |
| VisibilityCases.ShortCircuits | security/permission-utils/src/main/cpp/ezbake_visibility.cpp:113-126 | a right operand counts only when the left one leaves the value open; a failure counts where it is looked at |
| Visibility.EvaluatesRightlyIff | security/permission-utils/src/main/cpp/ezbake_visibility.cpp:197-217 | all expressions with exactly these markings evaluate rightly under all non-empty authorisations if and only if no marking but the first one processed occurs inside a truth literal |
| Visibility.ReadWrongly | security/permission-utils/src/main/cpp/ezbake_visibility.cpp:197-217 | for any later marking inside a literal: authorisations under which the first marking is read wrongly |
| Visibility.AbsorbingValue | security/permission-utils/src/main/cpp/ezbake_visibility.cpp:102-134 | an expression that mentions all markings and has the value of the first one alone |
| Visibility.ClashThrows | security/permission-utils/src/main/cpp/ezbake_visibility.cpp:197-246 | two markings of one length inside the false literal make their disjunction throw, in either order |
| Visibility.ClashExists | security/permission-utils/src/main/cpp/ezbake_visibility.cpp:72-73 | the markings e and z are such a pair |
| JsonRoundTrip.RoundTrip | common/src/main/include/contrib/picojson/picojson.h:406-516 | parsing a compact or prettified serialization, followed by text that cannot extend a number, gives the value back and leaves exactly what followed (after pretty output's own newline) |
| JsonRoundTrip.StringReads | common/src/main/include/contrib/picojson/picojson.h:648-684 | every byte string, control bytes and 0x7f included, reads back from its escaped form |
| JsonRoundTrip.IntReads | common/src/main/include/contrib/picojson/picojson.h:773-785 | every int64 reads back as itself, not as a double |
| JsonRoundTrip.PutSorted | common/src/main/include/contrib/picojson/picojson.h:861-866 | assignment to a key keeps an object in map order and brings in nothing but the assigned member |
| JsonRoundTrip.GetPut | common/src/main/include/contrib/picojson/picojson.h:861-866 | reading a key after an assignment gives the assigned value for that key and the old one for all others |
| JsonRoundTrip.ParsedIsWellFormed | common/src/main/include/contrib/picojson/picojson.h:745-798 | whatever is accepted has numbers in range and objects with distinct keys in order |
| JsonRoundTrip.PrintableIff | common/src/main/include/contrib/picojson/picojson.h:449-516 | the domain of the round trip is exactly the well-formed values without doubles |
| JsonRoundTrip.Canonical | common/src/main/include/contrib/picojson/picojson.h:406-798 | for every accepted text, printing the value and parsing again changes nothing |
| JsonGrammar.AcceptsIff | common/src/main/include/contrib/picojson/picojson.h:556-798 | the parser accepts exactly the texts that start with a value of the grammar, gives that value and leaves what follows; every other text is refused |
| JsonGrammar.TreeReads | common/src/main/include/contrib/picojson/picojson.h:686-798 | every syntax tree's text, with any gaps and any spelling of its literals, is read as the tree's value |
| JsonGrammar.TokenTree | common/src/main/include/contrib/picojson/picojson.h:686-798 | whatever is accepted is the text of a syntax tree with that value |
| JsonGrammar.AcceptedIsClosed | common/src/main/include/contrib/picojson/picojson.h:648-722 | what is accepted closes the bracket, brace or quote it begins with; an array left open is refused |
| JsonLexical.PiecesRead | common/src/main/include/contrib/picojson/picojson.h:648-684 | every string literal, in any mix of bytes, short escapes and \u escapes, reads as the bytes they stand for |
| JsonLexical.AcceptedString | common/src/main/include/contrib/picojson/picojson.h:648-684 | and only such literals are accepted: no bare control byte, no unknown escape, no lone surrogate |
| JsonLexical.NumeralReads | common/src/main/include/contrib/picojson/picojson.h:773-798 | every numeral is accepted: a whole number in the range of int64 as its decimal value, any other as written |
| JsonLexical.AcceptedNumeral | common/src/main/include/contrib/picojson/picojson.h:773-798 | and only numerals are accepted |
| JsonUnicode.EscapeReads | common/src/main/include/contrib/picojson/picojson.h:586-646 | every scalar value, in every spelling of its one or two units and before any text, reads as its UTF-8 form |
| JsonUnicode.Utf8IsUnique | common/src/main/include/contrib/picojson/picojson.h:629-644 | there is only one such form: shortest length, lead byte, continuation bytes and value determine the bytes |
| JsonUnicode.AcceptedEscape | common/src/main/include/contrib/picojson/picojson.h:607-646 | and only the texts of scalar values are accepted behind \u |
| JsonUnicode.HexValueIff | common/src/main/include/contrib/picojson/picojson.h:586-605 | the digits are those of the two hexadecimal alphabets |
| JsonUnicode.ShortEscapeReads | common/src/main/include/contrib/picojson/picojson.h:648-684 | the other escapes are those of section 7 of RFC 8259, and no more |
| JsonLayout.EscapeForm | common/src/main/include/contrib/picojson/picojson.h:406-436 | two characters for the bytes with a name, six with lower-case digits for other control bytes and 0x7f, the byte itself for the rest; each reads back as its byte |
| JsonLayout.CompactArray | common/src/main/include/contrib/picojson/picojson.h:455-478 | compact arrays are their items between brackets, separated by commas alone |
| JsonLayout.CompactObject | common/src/main/include/contrib/picojson/picojson.h:480-508 | and objects their members between braces |
| JsonLayout.PrettyArray | common/src/main/include/contrib/picojson/picojson.h:455-478 | pretty arrays have every item on a line of its own, one level deeper, and the bracket on its own; empty ones stay on their line |
| JsonLayout.PrettyObject | common/src/main/include/contrib/picojson/picojson.h:480-508 | and so do objects |
| JsonLayout.MemberForm | common/src/main/include/contrib/picojson/picojson.h:490-516 | a member is its key, a colon, a space in pretty text, and its value; a pretty document ends with a line feed |
| JsonLayout.BreakIs | common/src/main/include/contrib/picojson/picojson.h:442-447 | a line break is a line feed and two spaces a level |
| JsonLayout.LessIff | common/src/main/include/contrib/picojson/picojson.h:861-866 | members stand in the lexicographic order of their keys |
| JsonInput.Input.Getc | common/src/main/include/contrib/picojson/picojson.h:532-547 | returns the next character or end, and remembers what pushing back would restore |
| JsonInput.Input.Ungetc | common/src/main/include/contrib/picojson/picojson.h:548-553 | restores the text before the last read; its precondition is the source's own assertion, met by every caller |
| JsonInput.Input.SkipWs | common/src/main/include/contrib/picojson/picojson.h:556-564 | leaves the text from the first character that is not white space |
| JsonInput.Input.Expect | common/src/main/include/contrib/picojson/picojson.h:565-572 | skips white space and takes the expected character or nothing |
| JsonInput.Input.Match | common/src/main/include/contrib/picojson/picojson.h:573-583 | takes the pattern, or stops at the first difference |
| JsonInput.Input.QuadHex | common/src/main/include/contrib/picojson/picojson.h:586-605 | four hexadecimal digits, or -1 at the first character that is none |
| JsonInput.Input.ParseCodePoint | common/src/main/include/contrib/picojson/picojson.h:607-646 | the bytes of one escape, surrogate pairs included, and the rejected cases; which bytes those are is `JsonUnicode.EscapeReads` |
| JsonInput.Input.ParseString | common/src/main/include/contrib/picojson/picojson.h:648-684 | reads the same literal in both contexts and stops at the same place |
| JsonInput.Input.ParseNumber | common/src/main/include/contrib/picojson/picojson.h:724-743 | takes the longest run of number characters |
| JsonInput.Input.ParseArray | common/src/main/include/contrib/picojson/picojson.h:686-701 | the loop over items reads what the recursive specification reads |
| JsonInput.Input.ParseObject | common/src/main/include/contrib/picojson/picojson.h:703-722 | the loop over members reads what the recursive specification reads, assigning in order of appearance |
| JsonInput.Input.Parse | common/src/main/include/contrib/picojson/picojson.h:745-902 | the building and the discarding context accept the same texts and stop at the same position; every parse terminates because each value consumes input |
| JsonInput.Sink.SerializeStr | common/src/main/include/contrib/picojson/picojson.h:406-436 | the escaping loop writes the quoted form of every byte string |
| JsonInput.Sink.Serialize | common/src/main/include/contrib/picojson/picojson.h:442-516 | the loops write exactly the text the round trip is about, in both layouts |
| ProxyToken.SerializeProxyUserTokenToJson | security/client/src/main/cpp/EzSecurityTokenUtils.cpp:154-178 | writes the object of the set fields, in map order |
| ProxyToken.DeserializeProxyUserToken | security/client/src/main/cpp/EzSecurityTokenUtils.cpp:180-263 | checks the fields in the source's order and reports the first bad one; null counts as absent |
| ProxyToken.AcceptedIff | security/client/src/main/cpp/EzSecurityTokenUtils.cpp:180-263 | by the members' names: accepted exactly when it is an object all of whose members are of their kind, null allowed for the optional ones; otherwise the first wrong one in the source's order is named |
| ProxyToken.AcceptedFields | security/client/src/main/cpp/EzSecurityTokenUtils.cpp:187-262 | the token's fields are the members of those names; an optional one is set when its member is not null |
| ProxyToken.WrittenMembers | security/client/src/main/cpp/EzSecurityTokenUtils.cpp:154-178 | the object written has members of those names only, in map order, and reads back as the token |
| ProxyToken.WrittenX509 | security/client/src/main/cpp/EzSecurityTokenUtils.cpp:155-175 | the nested object has subject and issuer only |
| ProxyToken.GetAssigned | security/client/src/main/cpp/EzSecurityTokenUtils.cpp:155-175 | after a series of assignments to different keys each reads back, and keys left out read as null |
| ProxyToken.TokenRoundTrip | security/client/src/main/cpp/EzSecurityTokenUtils.cpp:154-263 | a token comes back from its own text, with the same optional fields set, whatever text follows |
| ProxyToken.Reread | security/client/src/main/cpp/EzSecurityTokenUtils.cpp:180-263 | for every text a token is accepted from: serializing and reading again gives the same token |
| ZkSafety.MatchingNeverFails | discovery/src/main/cpp/contrib/zk/src/zookeeper_c.cc:1305-1403 | in every run against a server that answers in order, with watcher events, auth and set-watches packets arriving unasked at any time, the xids of sent_requests are those on their way round, so the xid check and the assertion never fail |
| ZkSafety.MatchingKept | discovery/src/main/cpp/contrib/zk/src/zookeeper_c.cc:1348-1371 | each critical section and each such packet keeps the order of outstanding xids, connection loss and clean-up included |
| ZkSafety.CallbacksRunInOrder | discovery/src/main/cpp/contrib/zk/src/zookeeper_c.cc:1272-1303 | under the same server, callbacks of each kind run in the order of acceptance, and all have run once do_completion returns |
| ZkSafety.PlacesKept | discovery/src/main/cpp/contrib/zk/src/zookeeper_c.cc:563-637 | no step but requeueing moves a completion past another of its kind or drops one |
| ZkSafety.FreeingKeepsPlaces | discovery/src/main/cpp/contrib/zk/src/zookeeper_c.cc:563-608 | freeing sent_requests turns each asynchronous completion into a queued fake reply and runs each synchronous one, in order; pings vanish |
| ZkSafety.RequeueKeepsPlaces | discovery/src/main/cpp/contrib/zk/src/zookeeper_c.cc:1365-1370 | after a mismatch the completion goes back to the queue, at its end: nothing is lost, only the order |
| ZkSafety.ExactlyOnce | discovery/src/main/cpp/contrib/zk/src/zookeeper_c.cc:1272-1403 | whatever the server sends and whenever connections fail or the client closes: an accepted completion is in exactly one place, its callback never runs twice, and it has run once do_completion returns; a refused one never runs |
| ZkSafety.CalledOnceIff | discovery/src/main/cpp/contrib/zk/src/zookeeper_c.cc:1742-1755 | every request of a run is answered Ok; once do_completion has returned, its callback has run once if close had not been requested when it was made, and never otherwise |
| ZkSafety.OkButNeverCalled | discovery/src/main/cpp/contrib/zk/src/zookeeper_c.cc:1468-1485 | a run in which a request is answered Ok and never called back |
| ZkSafety.OwnReply | discovery/src/main/cpp/contrib/zk/src/zookeeper_c.cc:1356-1371 | whatever the server sends, a callback only ever gets the header of its own request |
| ZkSafety.PhasesKept | discovery/src/main/cpp/contrib/zk/src/zk_adaptor.cc:161-179 | one packet of death, met once; the completion thread frees the rest only after the I/O thread has ended |
| ZkSafety.NumberedKept | discovery/src/main/cpp/contrib/zk/src/zk_adaptor.cc:181-190 | xids drawn from the counter are never given to two requests |
| ZkSafety.EveryRunIsSafe | discovery/src/main/cpp/contrib/zk/src/zookeeper_c.cc:1272-1403 | all invariants hold after every run, honest server or not |
| ZkErrors.OutcomeHasSource | discovery/src/main/cpp/contrib/zk/src/zookeeper_c.cc:563-637 | over every run: what a callback is told was sent by the server for its xid, or is the reason of the clean-up or shutdown that freed it |
| ZkErrors.OkWasReplied | discovery/src/main/cpp/contrib/zk/src/zookeeper_c.cc:1272-1403 | a callback is told Ok only if the server has sent Ok for its request |
| ZkErrors.EveryFailureIsError | discovery/src/main/cpp/contrib/zk/src/zookeeper_c.cc:620-637 | in every run no failure that frees requests has the code Ok |
| ZkProtocol.FreedEntries | discovery/src/main/cpp/contrib/zk/src/zookeeper_c.cc:563-595 | the fake replies are the asynchronous completions and the direct calls the synchronous ones, in order |
| ZkProtocol.FreedCarryReason | discovery/src/main/cpp/contrib/zk/src/zookeeper_c.cc:573-594 | each of them carries the reason of the failure, under its own xid |
| ZkHandle.Handle.Submit | discovery/src/main/cpp/contrib/zk/src/zookeeper_c.cc:1468-1485 | the frame is always queued, the completion only while close_requested is not set, and the answer is Ok in either case |
| ZkHandle.Handle.FreeCompletions | discovery/src/main/cpp/contrib/zk/src/zookeeper_c.cc:563-595 | the loop empties sent_requests; every asynchronous completion is queued and every synchronous one called with the reason, in order, behind what was there |
| ZkHandle.Handle.CleanupBufs | discovery/src/main/cpp/contrib/zk/src/zookeeper_c.cc:611-618 | both buffer queues are emptied, and the completions freed with the code that is handed on |
| ZkHandle.Handle.HandleError | discovery/src/main/cpp/contrib/zk/src/zookeeper_c.cc:620-637 | a session event when the session was up or is lost for good, then clean-up: whoever waited is told the code, and the handle is no longer connected |
| ZkHandle.Handle.ZookeeperProcess | discovery/src/main/cpp/contrib/zk/src/zookeeper_c.cc:1305-1403 | the reply loop, with its early returns and its stop after an error reply, does what handling the packets one by one does; what that is, `ZkHandle.SpecialReply` and `ZkHandle.ReplyInTurn` say |
| ZkHandle.SpecialReply | discovery/src/main/cpp/contrib/zk/src/zookeeper_c.cc:1316-1371 | by the wire's xids: watch events are queued, set-watches and good auth replies dropped; a bad auth reply fails everyone with -115, a reply out of turn with -2; without anyone waiting it is an error when closing and a failed assertion otherwise |
| ZkHandle.ReplyInTurn | discovery/src/main/cpp/contrib/zk/src/zookeeper_c.cc:1348-1401 | a reply in turn goes to the request at the front, to nobody for a ping; a negative code ends the loop |
| ZkHandle.Handle.ProcessCompletions | discovery/src/main/cpp/contrib/zk/src/zookeeper_c.cc:1272-1303 | runs the callbacks queued before the packet of death and says whether it was met |
| ZkHandle.PacketIsSteps | discovery/src/main/cpp/contrib/zk/src/zookeeper_c.cc:1316-1401 | one pass of the reply loop is a run of the protocol and aborts exactly when that run does |
| ZkHandle.ProcessingIsSteps | discovery/src/main/cpp/contrib/zk/src/zookeeper_c.cc:1305-1403 | the whole reply loop, early returns included, is a run of the I/O thread and aborts exactly when that run does |
| ZkHandle.CompletionsAreSteps | discovery/src/main/cpp/contrib/zk/src/zk_adaptor.cc:161-179 | process_completions is a run of the completion thread's steps |
| Framing.RebuiltIsPrefix | discovery/src/main/cpp/contrib/zk/src/zookeeper_c.cc:469-555 | packets rebuilt from a stream of frames are the first packets sent, and what is pending starts the rest |
| Framing.SendBuffer.Send | discovery/src/main/cpp/contrib/zk/src/zookeeper_c.cc:469-504 | whatever part the socket takes, the wire gets exactly the next bytes of the frame; reported as sent only when none is left |
| Framing.SendQueue.QueueBuffer | discovery/src/main/cpp/contrib/zk/src/zookeeper_c.cc:458-462 | a queued packet adds its frame to what the wire and the queue hold together |
| Framing.SendQueue.FlushSendQueue | discovery/src/main/cpp/contrib/zk/src/zookeeper_c.cc:2051-2105 | under any short sends, EAGAIN and failures the wire stays a prefix of the frames queued, and nothing is lost; Ok means that the queue is empty or the last send fell short, and it gives up exactly at one failure more than the retries |
| FrameReader.ToHostReadsNetworkOrder | discovery/src/main/cpp/contrib/zk/src/zookeeper_c.cc:534-537 | ntohl on the raw length gives the network-order value on either kind of host |
| FrameReader.PartialLengthNeverMatches | discovery/src/main/cpp/contrib/zk/src/zookeeper_c.cc:519-555 | a partly read length never looks like a completed packet, in either byte order |
| FrameReader.InputBuffer.Recv | discovery/src/main/cpp/contrib/zk/src/zookeeper_c.cc:510-555 | exactly the bytes taken from the socket are added to what was seen; complete only with the whole frame |
| FrameReader.PacketReader.ReadEvent | discovery/src/main/cpp/contrib/zk/src/zookeeper_c.cc:985-1010 | retries included, the packets received, the partial one and the unread bytes always make the stream |
| FrameReader.ReceivedInOrder | discovery/src/main/cpp/contrib/zk/src/zookeeper_c.cc:469-555 | when what has arrived is a prefix of the frames sent, the packets received are the first ones sent |
| Connection.Link.Run | discovery/src/main/cpp/contrib/zk/src/zookeeper_c.cc:469-555 | both ends over every schedule of queueing, flushing, delivery and reading: the packets received are the first ones queued, in order, and all of them when nothing is under way any more |
| Connection.Link.QuietIsComplete | discovery/src/main/cpp/contrib/zk/src/zookeeper_c.cc:469-555 | nothing queued, on the wire, unread or half read means everything has been received |
| JuteCodec.RoundTrip | discovery/src/main/cpp/contrib/zk/generated/binarchive.cc:25-124 | for every schema, decoding an encoding followed by any bytes gives the value and exactly those bytes |
| JuteCodec.JustReadValidates | discovery/src/main/cpp/contrib/zk/generated/zookeeper.jute.cc:40-43 | a record just read validates, nested records included |
| JuteCodec.Reencodes | discovery/src/main/cpp/contrib/zk/generated/binarchive.cc:106-124 | what a read accepts is written back byte for byte if and only if no string length in it was negative |
| JuteCodec.SecondWriteFails | discovery/src/main/cpp/contrib/zk/generated/zookeeper.jute.cc:21-30 | writing resets the bits, so a record with a field cannot be written twice |
| JuteCodec.FilledKeepsComplete | discovery/src/main/cpp/contrib/zk/generated/zookeeper.jute.cc:31-39 | reading sets every bit and changes nothing else |
| JuteCodec.StatSize | discovery/src/main/cpp/contrib/zk/generated/zookeeper.jute.cc:108-135 | a Stat takes 68 bytes |
| JuteCodec.Be64RoundTrip | discovery/src/main/cpp/contrib/zk/generated/binarchive.cc:25-39 | the eight bytes of a long determine it |
| JuteLayout.Shapes | discovery/src/main/cpp/contrib/zk/generated/binarchive.cc:25-112 | a boolean is one byte, an int four and a long eight digits in base 256, most significant first, in two's complement; a string and a vector start with their length as an int |
| JuteLayout.ItemsInOrder | discovery/src/main/cpp/contrib/zk/include/zookeeper/archive.hh:97-106 | items are written one behind the other, in their order |
| JuteLayout.FieldsInOrder | discovery/src/main/cpp/contrib/zk/generated/zookeeper.jute.cc:21-30 | and so are the fields of a record, in the order of the schema |
| Jute.LongDigits | discovery/src/main/cpp/contrib/zk/generated/binarchive.cc:25-64 | byte i of a long, negative or not, is its digit with 7 - i bytes behind it |
| Bytes.Be32Digits | discovery/src/main/cpp/contrib/zk/generated/binarchive.cc:73-77 | byte i of an int is its digit with 3 - i bytes behind it |
| JuteArchive.Htonll | discovery/src/main/cpp/contrib/zk/generated/binarchive.cc:25-39 | the in-place swap mirrors the bytes exactly on a little-endian host |
| JuteArchive.SerializeLong | discovery/src/main/cpp/contrib/zk/generated/binarchive.cc:60-64 | a long is written in network order on either kind of host |
| JuteArchive.DeserializeLong | discovery/src/main/cpp/contrib/zk/generated/binarchive.cc:66-71 | and read back from it |
| JuteArchive.SerializeString | discovery/src/main/cpp/contrib/zk/generated/binarchive.cc:106-112 | length, then bytes |
| JuteArchive.DeserializeString | discovery/src/main/cpp/contrib/zk/generated/binarchive.cc:114-124 | a length that is not positive gives the empty string; a short stream fails |
| JuteArchive.Serialize | discovery/src/main/cpp/contrib/zk/generated/zookeeper.jute.cc:21-87 | succeeds exactly when every record inside has all its fields set, writes the encoding and resets the bits |
| JuteArchive.SerializeItems | discovery/src/main/cpp/contrib/zk/include/zookeeper/archive.hh:97-106 | the loop over a vector's items, each validated when its turn comes |
| JuteArchive.DeserializeItems | discovery/src/main/cpp/contrib/zk/include/zookeeper/archive.hh:51-61 | the counting loop pushes the decoded items in order |
| JuteArchive.Deserialize | discovery/src/main/cpp/contrib/zk/generated/zookeeper.jute.cc:31-82 | reads what the specification decodes, for every schema and every input |
| Properties.Parse | configuration/src/main/cpp/util/PropertiesUtil.cpp:37-277 | the loop, on every readable text, computes the result of the state machine; what that is for a file, the rows of PropertyLines say line by line |
| PropertyLines.AssignmentIsRead | configuration/src/main/cpp/util/PropertiesUtil.cpp:47-262 | blanks, a key in any spelling (escaped separators, continued lines), any number of separators, a value in any spelling and a line end assign that value to that key; what follows is parsed as if it stood alone |
| PropertyLines.PlainAssignment | configuration/src/main/cpp/util/PropertiesUtil.cpp:68-204 | in particular every plain key, every run of blanks, colons and equals signs, and every value without backslash or line end that does not start with one of them |
| PropertyLines.KeyAloneIsRead | configuration/src/main/cpp/util/PropertiesUtil.cpp:68-105 | a key alone on its line is assigned the empty value |
| PropertyLines.CommentIsDropped | configuration/src/main/cpp/util/PropertiesUtil.cpp:47-270 | a line with # or ! behind its blanks is dropped up to its line end, backslashes included |
| PropertyLines.LastLine | configuration/src/main/cpp/util/PropertiesUtil.cpp:178-276 | an assignment without a line end at the end of the text counts, unless its key is empty |
| PropertyLines.OtherEscapeHangs | configuration/src/main/cpp/util/PropertiesUtil.cpp:107-140 | in a key a backslash before any other character is where the loop stays for ever |
| Properties.EndsIff | configuration/src/main/cpp/util/PropertiesUtil.cpp:107-140 | the loop ends after some number of rounds if and only if the text is readable: one pass over its lines finds no unlisted character after a backslash in a key; the properties before do not matter |
| Properties.StuckForEver | configuration/src/main/cpp/util/PropertiesUtil.cpp:107-140 | there it repeats the same round for ever |
| Properties.ListedBackslashesEnd | configuration/src/main/cpp/util/PropertiesUtil.cpp:107-140 | listed characters after every backslash are enough for it to end |
| Properties.RoundTrip | configuration/src/main/cpp/util/PropertiesUtil.cpp:47-277 | pairs of any characters but CR and LF, escaped, one a line, parse to exactly those assignments in turn; the loop always ends on such a text |
| Properties.MapRoundTrip | configuration/src/main/cpp/util/PropertiesUtil.cpp:47-277 | the pairs of a map without CR and LF, written in any order, parse to exactly that map; keys starting with # or ! included |
| Properties.HoldsIff | configuration/src/main/cpp/util/PropertiesUtil.cpp:47-277 | the maps some text parses to are exactly those without CR and LF in keys and values |
| Properties.ContinuesIff | configuration/src/main/cpp/util/PropertiesUtil.cpp:206-262 | a value goes on after a backslash and a line break, behind the next line's blanks, if and only if the break is not CR LF |
| Properties.KeyTextReads | configuration/src/main/cpp/util/PropertiesUtil.cpp:47-160 | a key text, broken line included, reads as that key from the beginning of a line |
| Properties.RunIsTidy | configuration/src/main/cpp/util/PropertiesUtil.cpp:88-105 | back at the beginning of a line, key and element are empty |
| Properties.RunAppends | configuration/src/main/cpp/util/PropertiesUtil.cpp:47-270 | more text only continues the run |
| Properties.Locality | configuration/src/main/cpp/util/PropertiesUtil.cpp:47-276 | when a text ends back at BEGIN, what follows is parsed into its result as if it stood alone |
| Properties.DirectSpellingsFail | configuration/src/main/cpp/util/PropertiesUtil.cpp:59-64 | why such a key is written after a broken line: with the bare mark the line is a comment, with the mark escaped the parser hangs |
| LruCache.Cache.FindEntry | common/src/main/include/ezbake/common/lrucache/LRUCache.h:351-359 | finds the pair through the key index exactly when the recency list holds it |
| LruCache.Cache.GetLruEntry | common/src/main/include/ezbake/common/lrucache/LRUCache.h:361-378 | the smallest distance in the recency list is the earliest entry of the key |
| LruCache.Cache.Get | common/src/main/include/ezbake/common/lrucache/LRUCache.h:159-178 | equals get on one recency-ordered list |
| LruCache.Cache.Pop | common/src/main/include/ezbake/common/lrucache/LRUCache.h:227-240 | equals pop on that list |
| LruCache.Cache.Put | common/src/main/include/ezbake/common/lrucache/LRUCache.h:251-271 | equals put on that list: an equal pair goes, then the least recent entry if full |
| LruCache.Cache.RemoveKey | common/src/main/include/ezbake/common/lrucache/LRUCache.h:280-295 | removes exactly the entries of the key and returns their values |
| LruCache.Cache.RemovePair | common/src/main/include/ezbake/common/lrucache/LRUCache.h:306-320 | removes the pair if it is there and says so |
| LruCache.Cache.GetKey | common/src/main/include/ezbake/common/lrucache/LRUCache.h:187-201 | the key of the least recent entry with the value |
| LruCache.EraseKeepsIndex | common/src/main/include/ezbake/common/lrucache/LRUCache.h:227-271 | erasing a node keeps the key index and the recency list holding the same nodes |
| LruCache.InsertKeepsIndex | common/src/main/include/ezbake/common/lrucache/LRUCache.h:267-270 | inserting keeps them agreeing too |
| LruCache.EraseAgrees | common/src/main/include/ezbake/common/lrucache/LRUCache.h:227-271 | erasing a node keeps both views in agreement and takes its entry out of the list |
| LruCache.InsertAgrees | common/src/main/include/ezbake/common/lrucache/LRUCache.h:267-270 | inserting keeps them in agreement and puts the entry last |
| LruMeaning.PresentMeaning | common/src/main/include/ezbake/common/lrucache/LRUCache.h:159-240 | get serves the least recent entry of the key and moves it to the end, pop serves it and takes it out; all other entries stay in place |
| LruMeaning.StoredAgain | common/src/main/include/ezbake/common/lrucache/LRUCache.h:251-320 | putting a pair that is there moves it to the end; removing it takes out that entry alone |
| LruMeaning.StoredAnew | common/src/main/include/ezbake/common/lrucache/LRUCache.h:251-271 | a new pair goes to the end, and in a full cache the least recent entry of all goes |
| LruMeaning.KeyRemovedMeaning | common/src/main/include/ezbake/common/lrucache/LRUCache.h:280-295 | removing a key takes out its entries and leaves those of every other key in their order |
| LruMeaning.KeyOfMeaning | common/src/main/include/ezbake/common/lrucache/LRUCache.h:187-201 | the answer is the key of the first entry with the value, or none |
| LruList.StoredIsSound | common/src/main/include/ezbake/common/lrucache/LRUCache.h:251-271 | no pair twice and never more entries than a non-zero capacity |
| LruList.TouchRotates | common/src/main/include/ezbake/common/lrucache/LRUCache.h:159-178 | get serves the least recent value of the key and puts it last among them |
| LruList.GetsCycle | common/src/main/include/ezbake/common/lrucache/LRUCache.h:159-178 | fairness over runs: whatever else happens to other keys, the gets of a key return its values in turn, round and round |
| LruList.ValuesDistinct | common/src/main/include/ezbake/common/lrucache/LRUCache.h:255-260 | the values of one round are all different |
| LruList.Survives | common/src/main/include/ezbake/common/lrucache/LRUCache.h:251-271 | an entry at a given place outlives every run of puts and gets shorter than what the capacity leaves |
| LruList.JustUsedSurvives | common/src/main/include/ezbake/common/lrucache/LRUCache.h:251-271 | an entry just put or got survives the next capacity - 1 puts and gets |
| LruTimed.TimedCache.Get | common/src/main/include/ezbake/common/lrucache/LRUTimedCache.h:155-173 | the least recent entry of the key is answered if and only if there is no expiration or it lies ahead; an expired one is removed |
| LruTimed.TimedCache.Pop | common/src/main/include/ezbake/common/lrucache/LRUTimedCache.h:220-236 | the least recent entry of the key is removed, and answered if and only if there is no expiration or it lies ahead |
| LruTimed.AnswerMeaning | common/src/main/include/ezbake/common/lrucache/LRUTimedCache.h:292-299 | the same of the answer as a function, in terms of seconds and microseconds |
| LruTimed.PutAndGet | common/src/main/include/ezbake/common/lrucache/LRUTimedCache.h:155-299 | a put followed by a get answers the value if and only if the expiration is 0 or the second of the put and the expiration lie ahead |
| LruTimed.ServedFor | common/src/main/include/ezbake/common/lrucache/LRUTimedCache.h:292-299 | so every age of at most expiration - 1 seconds is served and none from the expiration on |
| LruTimed.TimedCache.GetKey | common/src/main/include/ezbake/common/lrucache/LRUTimedCache.h:182-210 | answers as the scan does, which `LruTimed.ScanMeaning` describes by the clock, and removes exactly the scan's expired matches |
| LruTimed.TimedCache.RemoveValue | common/src/main/include/ezbake/common/lrucache/LRUTimedCache.h:266-288 | removes every entry of the key with the value, whatever its time |
| LruTimed.ScanMeaning | common/src/main/include/ezbake/common/lrucache/LRUTimedCache.h:189-207 | the scan stops at the least recent match whose expiration is 0 or lies ahead and collects exactly the matches before it |
| LruTimed.NeverStale | common/src/main/include/ezbake/common/lrucache/LRUTimedCache.h:28-37 | after any run, what get or pop answers was put under that key less than the expiration ago, despite truncated seconds |
| LruTimed.LiveIsReached | common/src/main/include/ezbake/common/lrucache/LRUTimedCache.h:155-173 | with x expired entries and a live one, one of x + 1 gets at one instant answers the first live value; the gets before it answer nothing |
| PathText.SplitPath | discovery/src/main/cpp/ServiceDiscoveryClient.cpp:87-109 | the loop gives the pieces between delimiters |
| PathText.SplitRejoins | discovery/src/main/cpp/ServiceDiscoveryClient.cpp:87-109 | with empty pieces kept, the pieces have no delimiter and give the text back but for a delimiter at its end |
| PathText.SplitDropsEmpty | discovery/src/main/cpp/ServiceDiscoveryClient.cpp:87-109 | otherwise exactly the empty pieces are missing |
| PathText.SplitIsPlain | discovery/src/main/cpp/ServiceDiscoveryClient.cpp:87-109 | splitting any text gives non-empty parts without delimiters |
| PathText.PlainIsMade | discovery/src/main/include/ezbake/ezdiscovery/ServiceDiscoveryClient.h:88-111 | plain parts are always accepted and make the plain path |
| PathText.SplitJoined | discovery/src/main/cpp/ServiceDiscoveryClient.cpp:87-109 | splitting a path made from plain parts returns those parts |
| PathText.JoinedNotDoubled | discovery/src/main/cpp/ServiceDiscoveryAsyncClient.cpp:161-165 | such a path never contains a doubled delimiter |
| PathCreation.CreateNext | discovery/src/main/cpp/ServiceDiscoverySyncClient.cpp:160-171 | a create in turn never misses its parent: the node is made unless it is there |
| PathCreation.RemovalKeepsClosed | discovery/src/main/cpp/ServiceDiscoverySyncClient.cpp:146-151 | the first removal keeps ancestors in place and fails exactly when the node has children |
| PathCreation.SyncClient.CreatePath | discovery/src/main/cpp/ServiceDiscoverySyncClient.cpp:146-180 | creates from the top in order; the tree gains the node and its ancestors; succeeds exactly when the node had no children |
| PathCreation.CreatePathDelegate.Start | discovery/src/main/cpp/ServiceDiscoveryAsyncClient.cpp:159-177 | the ways to begin: an exception exactly when a delimiter follows a delimiter behind the beginning, an error report, the first request, or an error when it cannot be dispatched |
| PathCreation.CreatePathDelegate.Process | discovery/src/main/cpp/ServiceDiscoveryAsyncClient.cpp:196-226 | each callback reports once, asks for the next node, reports an error when that cannot be dispatched, or throws |
| PathCreation.RunCallbacks | discovery/src/main/cpp/ServiceDiscoveryAsyncClient.cpp:179-226 | the number of nodes still to create decreases at every callback, until one report or the exception |
| PathCreation.CreatePathAsync | discovery/src/main/cpp/ServiceDiscoveryAsyncClient.cpp:130-226 | the same requests in the same order and the same tree as the synchronous loop; OK reported once exactly when that loop succeeds; an error reported once when a request cannot be dispatched |
| PathCreation.SilentExample | discovery/src/main/cpp/ServiceDiscoveryAsyncClient.cpp:213-224 | at /a above /a/b nothing is reported and the callback throws |
| Base64.RoundTrip | security/permission-utils/src/main/include/base64.h:72-178 | decoding undoes encoding, for all bytes |
| Base64.EncodedLength | security/permission-utils/src/main/include/base64.h:83-84 | the size of the encoding |
| Base64Format.EveryGroup | security/permission-utils/src/main/include/base64.h:72-120 | every three bytes begun make one number and are written as its four digits in the alphabet, most significant first; a digit without a byte of its own is = |
| Base64Format.DigitIsInAlphabet | security/permission-utils/src/main/include/base64.h:36 | the digits are the alphabet of RFC 4648, table 1 |
| Base64Format.UndigitIsPlace | security/permission-utils/src/main/include/base64.h:39-66 | the decoding table gives a character's place in the alphabet, and 0 for every other character |
| Base64.FitsIff | security/permission-utils/src/main/include/base64.h:81-83 | all int computations of both functions fit if and only if the length is at most 536870910 |
| Base64.Base64 | security/permission-utils/src/main/include/base64.h:72-120 | fills its buffer with exactly the encoding and a terminator |
| Base64.Unbase64 | security/permission-utils/src/main/include/base64.h:122-178 | for every text whose decoding fits: the announced size, the buffer filled as far as the decoder writes, and the decoding for whole groups; shorter than two gives none |
| Base64.UnpackInto | security/permission-utils/src/main/include/base64.h:147-176 | for every length: exactly how many bytes are written, which, and that nothing behind them is touched |
| Base64.WritesAsAnnouncedIff | security/permission-utils/src/main/include/base64.h:139-176 | for every length and padding: as many bytes are written as announced, or more, if and only if the length and the padding are so |
| Base64.OverrunExists | security/permission-utils/src/main/include/base64.h:139-176 | six characters, the last one padding: three bytes announced, five written |
| Base64.UnpackedIsDecoded | security/permission-utils/src/main/include/base64.h:147-176 | for whole groups what is written is the decoding, and as long as announced |
| WatchManager.Manager.MoveWatches | discovery/src/main/cpp/contrib/zk/src/watch_manager.cc:29-37 | the list at a path leaves its map for the end of the other list |
| WatchManager.Manager.GetWatches | discovery/src/main/cpp/contrib/zk/src/watch_manager.cc:39-75 | event by event: which of the three maps lose the path, that their lists are handed out in the maps' order, and that the others stay |
| WatchManager.Manager.GetSessionWatches | discovery/src/main/cpp/contrib/zk/src/watch_manager.cc:47-60 | a session event copies the default watch and every pending watch, list after list in the order of the maps |
| WatchManager.EachListOnce | discovery/src/main/cpp/contrib/zk/src/watch_manager.cc:51-59 | in such a copy every path's list stands once, whole and in its order |
| WatchManager.Manager.Activate | discovery/src/main/cpp/contrib/zk/src/watch_manager.cc:156-199 | by kind and answer: the one map that gets the watch, at the end of the path's list, while the others stay; nothing for any other answer |
| WatchManager.Manager.GetPaths | discovery/src/main/cpp/contrib/zk/src/watch_manager.cc:115-121 | each path with a list, once |
| WatchManager.Manager.SetWatchesRequest | discovery/src/main/cpp/contrib/zk/src/zookeeper_c.cc:724-749 | lists exactly the paths with pending watches and sends nothing when there are none |
| WatchManager.Conservation | discovery/src/main/cpp/contrib/zk/src/watch_manager.cc:29-121 | over every run, at every path: activated = still pending + handed out by node events |
| WatchManager.ExactlyOnce | discovery/src/main/cpp/contrib/zk/src/watch_manager.cc:29-121 | a watch activated once is pending or was handed out, once |
| WatchManager.AlwaysTidy | discovery/src/main/cpp/contrib/zk/src/watch_manager.cc:82-95 | no path maps to an empty list |
| FrameBuffer.GrowTo | thrift-utils/src/main/include/ezbake/thriftutils/tasync/TAsyncAsioTransport.h:183-190 | the doubling loop ends without 32-bit wrap |
| FrameBuffer.GrowthStays | thrift-utils/src/main/include/ezbake/thriftutils/tasync/TAsyncAsioTransport.h:182-203 | the buffer never exceeds 2^31 bytes |
| FrameBuffer.BoundIsReached | thrift-utils/src/main/include/ezbake/thriftutils/tasync/TAsyncAsioTransport.h:182-203 | from the default size the buffer can reach 2^31 bytes |
| FrameBuffer.OutputTransport.Write | thrift-utils/src/main/include/ezbake/thriftutils/tasync/TAsyncAsioTransport.h:178-208 | the buffer is the pad and the concatenated writes; it throws, changing nothing, exactly over the limit |
| FrameBuffer.OutputTransport.Flush | thrift-utils/src/main/include/ezbake/thriftutils/tasync/TAsyncAsioTransport.h:213-235 | the frame is the payload's size in network order and the payload |
| FrameBuffer.OutputTransport.WriteAll | thrift-utils/src/main/include/ezbake/thriftutils/tasync/TAsyncAsioTransport.h:178-208 | a series of writes: the buffer collects them, and only above the limit one throws |
| FrameBuffer.OutputTransport.WriteFromBuffer | thrift-utils/src/main/include/ezbake/thriftutils/tasync/TAsyncAsioTransport.h:163-175 | one message leaves as one frame |
| FrameBuffer.HandleReadFrameLength | thrift-utils/src/main/include/ezbake/thriftutils/tasync/TAsyncAsioTransport.h:321-350 | an error, fewer than four bytes, a first byte of 128 or more, and otherwise the four bytes as a number, in this order |
| FrameBuffer.FlushedSizeReadsBack | thrift-utils/src/main/include/ezbake/thriftutils/tasync/TAsyncAsioTransport.h:213-350 | a flushed size reads back as the payload's length, never negative |
| FrameBuffer.SendAndRead | thrift-utils/src/main/include/ezbake/thriftutils/tasync/TAsyncAsioTransport.h:178-350 | every series of writes leaves as one frame whose size is read as the number of bytes that follow, and these are the writes one after the other |

## Left out

- Sockets, DNS, TLS, poll, threads and boost asio appear only as partial reads and writes and as interleaved steps.
- JSON doubles: a number that is no int64 is kept as its literal and not printed; literals that overflow to infinity throw in the source and are accepted here. Locale decimal points, line counting and `operator==` on values are not modelled.
- Whitespace in visibility expressions: `remove_if` is used without erase, so markings are wrong there. `Visibility.EvaluateVisibilityExpression` says what is rewritten and `VisibilityCases.SpacedMarking` what becomes of one marking; the theorems on meaning exclude spaces. The characters of a marking outside letters and digits are covered as the rewrite covers them. Letters and digits are the ASCII ones.
- In `cleanup_bufs` freeing the buffers and freeing the completions are two critical sections; here they are one. A request submitted between them would keep its frame and lose its completion.
- A half-read input buffer kept across a reconnect, and callbacks of `zoo_add_auth`, are not modelled. Xids do not wrap onto the reserved values, and two threads do not call `zookeeper_close` at once.
- Whether a callback is synchronous decides where it runs, and nothing else about it is modelled; reply bodies are not modelled in the protocol (the archive covers them).
- flush_send_queue is modelled with timeout 0, the only way it is called; the code after the early return of `zookeeper_close` is dead.
- Frames of length 0 or above 2147483643 are outside the framing theorems; such a received length is reported as out of range.
- Jute records are values, not objects: writing returns the record with its bits reset instead of changing it in place. Maps, floats and doubles are not modelled. A negative vector length and a boolean byte other than 0 and 1 make the read fail; in the source the first exhausts the stream and the second is undefined. The archive's assertions are taken to be enabled.
- Keys of the caches are one fixed type compared by equality, where the source has a template parameter. Locking is not modelled: every cache operation is one step, `get` of the timed cache included. `valueSet`, `entrySet`, `clear` and the counting queries would add only easy members. The timed cache holds the plain cache instead of inheriting from it.
- JsonInput.Input.Parse: says nothing about the value left behind by a failed parse.
- Properties.Parse: required a readable text; on others the source does not return.
- PathCreation.CreatePathAsync: stated for absolute paths without empty or trailing parts on a tree nobody else changes; what a server answers to other paths is not part of the repository. `CreatePathDelegate.Start` and `CreatePathDelegate.Process` are stated for all inputs and answers.
- PathCreation.SyncClient.CreatePath: the same paths, except that every path without parts is out of range.
- Base64.Unbase64: required not to write behind its buffer; `Base64.UnpackInto` covers the other texts, given the memory behind the buffer and the text. An allocation of zero bytes gives a buffer. Disjoint bits joined by `|` are written as sums.
- Connection.Link.Run: about one connection; once the reader has given it up, nothing more is read.
- mergeProperties, configuration helpers, string conversion, HostAndPort, loggers, OpenSSL code, thrift client pools and the security services are thin or not shown, and not part of this model.
