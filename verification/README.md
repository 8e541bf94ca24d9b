# pianod, verified

A model of the parts of the pianod music daemon that carry its guarantees, in Dafny, with proofs of
those guarantees for all inputs, all runs and all interleavings. One module follows one part of the
program; where the C code changes things step by step, so do the methods here, and each is proved
against a definition that says what it is for.

- **Commands** (`Tokenizer`, `PlainTerms`, `Patterns`, `NumberTexts`, `PatternTexts`, `CommandTrie`,
  `CommandParser`, `CommandLanguage`, `WrittenCommands`, and for what merging blanks of different radix
  does `RadixErasure`, `RadixClash`, `RadixOutcomes` and `RadixExample`): lines are split into terms, and patterns with choices, options,
  blanks and ranges are compiled into one sorted tree that lines are looked up in. Patterns have a
  meaning of their own, as sets of token lists; the tree is proved to have just that meaning, and
  every error to be the right one at the right place, exactly when no such blanks were merged. What the
  words of a written pattern stand for is pinned down by writing patterns out and reading them back.
- **Connections** (`Messages`, `WebSocket`, `Output`, `Lifecycle`): use-counted texts wait in many
  queues at once, go out in whatever pieces sockets take, for WebSocket clients framed line by line,
  while connections come, greet, open, flush and close.
- **Reading HTTP and XML** (`Chunked`, `Headers`, `HeaderTexts`, `XmlText`, `XmlReferences`, `ChildIndex`):
  decoders that must not
  depend on how reads cut their input, a printer and its reader, and the links between the children
  of an XML tag.
- **Threads** (`ThreadQueue`, `PlayerRuns`, `PlayerLoop`): the queue between threads, and the main loop
  with its player thread: runs of their steps in any order, what holds over all of them, and the
  program's own code as what takes these steps.
- **Checksums and bookkeeping** (`Sha1`, `Sha1Example`, `LamerCipher`, `SkipLimiter`, `Tuner`): streaming
  SHA-1 against RFC 3174, the cipher for stored passwords, the skip limit and the choice of stations.

`CStrings` holds the C string functions that several of these use, `Basics` what needs no C.

## How to read the model

A C string is a `string` without a NUL, a buffer an `array`. A C assertion in the pattern compiler is
a failed add (`None`), as the head of `fb_parser.c` means it. Addresses of messages, queue nodes and
connections are numbers where only their identity matters; in `ThreadQueue` and `ChildIndex` they are
objects, linked as in C. Fields marked `ghost` record what happened (everything queued, every event
given out, every skip granted) so that statements about whole runs can be made. Invariants that every
step keeps are the predicates named `Valid`, and what they mean for a run is drawn out in lemmas such
as `Lifecycle.SocketManager.RunIsProper`. `PlayerLoop.App` records the steps it has taken, and its
`Valid` says that its fields are what these steps come to; so the theorems of `PlayerRuns` about runs
are about it.

## Where code and documentation differ

The code is followed.

- Two blanks that differ only in radix are merged into one (`fb_parser.c:370-383`), although their
  ranges then read different numbers. The outcomes are those the definitions explain exactly when that
  does not happen: `RadixOutcomes.OutcomesRightIffNoRadixMerged`, with an example in `RadixExample`. In
  the trie functions `strict` stands for comparing the radix as well, and `RadixErasure` says what holds
  whether or not blanks were merged.
- With a Content-Length, how much is taken of a body that is longer depends on how reads cut it:
  `Chunked.WholeWhateverTheCuts`.
- A range of integers whose upper bound is just 0 has its radix detected, one whose lower bound is just 0
  has not (`fb_parser.c:345-350`); `PatternTexts.UpperOf` writes such a bound with a sign.
- Words after `...` in a pattern are ignored. An optional blank with `...` after it may be left out
  only together with everything behind it. A required choice of no words accepts nothing, and leads
  nowhere; `CommandLanguage.WellMade` shuts it out where that matters.
- A WebSocket payload of 2^32 bytes or more gets a wrong length: `WebSocket.HugeFrameMisreads`.
- SHA1Input reports success for the very call that takes a message to 2^64 bits, and only then fails.
- `thread_queue_get` reports a timeout even if a message has come in by then.
- A song history of length 0 does not take a song that has ended, nor does anything else.
- Header reading with an unfinished line goes on until the buffer of 10 KiB is full, or a NUL
  hides the end of a line; either ends as a closed connection, however the stream was cut.
- A fallback session is announced before its first command is given out, which waits for the next
  poll; a session opened by an HTTP upgrade is announced even if sending the answer has just failed.

## Model

| member | source | states |
|---|---|---|
| Tokenizer.TermsFitCount | src/libfootball/fb_parser.c:144-204 | for every line, the quote-aware second pass finds at most as many terms as the first pass counted words, from any place a term may start |
| Tokenizer.CountPass | src/libfootball/fb_parser.c:144-156 | the first pass counts the runs of non-blank characters of the trimmed line |
| Tokenizer.TakeTerm | src/libfootball/fb_parser.c:167-204 | one turn of the second pass puts exactly the next term, without its quotes, NUL-terminated into the scratch copy, stays below the place it goes on from, and disturbs no term taken before |
| Tokenizer.FillPass | src/libfootball/fb_parser.c:157-207 | the second pass fills argv and argr with every term and its place in the line, and leaves null behind them in both halves |
| Tokenizer.CreateArgv | src/libfootball/fb_parser.c:131-216 | for every line: argc terms fit the vector sized by the first pass, argv holds their texts, argr the suffixes of the line that start at them, and both end in null at argc |
| Tokenizer.QuotedRoundTrip | src/libfootball/fb_parser.c:131-216 | writing terms double-quoted and space-separated and splitting the line gives the same terms back if and only if no term has a quote directly before whitespace |
| PlainTerms.PlainRoundTrip | src/libfootball/fb_parser.c:131-216 | words that do not begin with a quote, written as they are with spaces between, are split up again into just these words |
| PlainTerms.TermsArePlaced | src/libfootball/fb_parser.c:157-207 | every term of every line starts where a word does, behind whitespace or at the beginning, one behind the other, and its text stands there or behind the quote there |
| CStrings.LowerAgrees | src/libfootball/fb_parser.c:246-252 | words that compare equal are the same but for letters in upper and lower case |
| Patterns.StrtolStable | src/libfootball/fb_parser.c:652-663 | scanning only what strtol used scans the same number |
| Patterns.ParsedSpecSatisfiable | src/libfootball/fb_parser.c:322-368 | every fill-in-the-blank that the compiler accepts, with or without a range, takes some token |
| PatternTexts.WrittenIsRead | src/libfootball/fb_parser.c:434-549 | every term of a pattern (keyword, choice with or without a name, required or optional, blank of every kind but reals, optional blank, three dots) has a text, written from its parts, that is read back as that term |
| PatternTexts.StatementIsRead | src/libfootball/fb_parser.c:575-587 | a statement written word by word, with spaces between, is read as the pattern it was written for |
| PatternTexts.IntRangeIsRead | src/libfootball/fb_parser.c:322-368 | a blank with two longs as bounds, in decimal or for radix detection in hexadecimal, is read with just these bounds and radix, and is malformed unless the first is the smaller |
| PatternTexts.KeywordAccepts | src/libfootball/fb_parser.c:548-548 | a bare word accepts itself, in upper or lower case, and nothing else |
| PatternTexts.ChoiceAccepts | src/libfootball/fb_parser.c:496-545 | <w1|...|wk> accepts one term that is one of the words, and nothing else |
| PatternTexts.OptionAccepts | src/libfootball/fb_parser.c:496-545 | [w1|...|wk] accepts the same, or nothing at all |
| PatternTexts.NamedAccepts | src/libfootball/fb_parser.c:519-525 | a name with a colon before the words makes no difference to that |
| PatternTexts.TextAccepts | src/libfootball/fb_parser.c:322-328 | {name} accepts any one term |
| PatternTexts.MaybeAccepts | src/libfootball/fb_parser.c:441-465 | [{...}] accepts what {...} does, or nothing at all |
| PatternTexts.NumericAccepts | src/libfootball/fb_parser.c:678-692 | {#name} accepts every number in decimal, and with something behind it just if that is digits |
| PatternTexts.RangeAccepts | src/libfootball/fb_parser.c:652-664 | {#name:min-max} accepts a long in decimal if and only if it is in the range |
| PatternTexts.JunkDoesNotFit | src/libfootball/fb_parser.c:652-659 | and never one with something behind it that is no digit or letter |
| PatternTexts.RealsAccept | src/libfootball/fb_parser.c:665-677 | a range of reals, with bounds that strtod reads to their ends, accepts the terms that strtod reads as numbers of it |
| PatternTexts.AcceptsJoined | src/libfootball/fb_parser.c:17-33 | what one pattern behind another accepts is, split somewhere, what the first accepts and what the second does |
| Patterns.LiveCompletes | src/libfootball/fb_parser.c:17-33 | a pattern without dead choices accepts some command line, which is constructed |
| Patterns.ReachesIsViable | src/libfootball/fb_parser.c:17-33 | what a pattern can be matched along is what can be extended to a full match, if no choice in it is dead |
| CommandTrie.AddKeeps | src/libfootball/fb_parser.c:434-549 | adding a pattern keeps the tree well-formed (one kind of children per node, distinct keywords) and leaves no node that leads nowhere |
| CommandTrie.AddExtends | src/libfootball/fb_parser.c:434-549 | where the radix of merged blanks is compared as well: after adding a pattern the tree accepts, and goes on with, exactly what it did before and what the pattern denotes, with optional and alternative words expanded |
| CommandTrie.AddChoiceExtends | src/libfootball/fb_parser.c:496-545 | the same for a choice of words, each with the rest of the pattern behind it |
| CommandTrie.AddKeywordExtends | src/libfootball/fb_parser.c:266-312 | the same for a keyword, shared with earlier patterns or new |
| CommandTrie.AddFillInExtends | src/libfootball/fb_parser.c:322-425 | the same for a fill-in-the-blank |
| CommandTrie.AddOptionalFillInExtends | src/libfootball/fb_parser.c:441-465 | the same for an optional fill-in-the-blank, which ends its pattern |
| RadixClash.AddKeepsValue | src/libfootball/fb_parser.c:370-425 | a node that takes a value goes on taking just that kind of value whatever is added later |
| RadixClash.RefusedAddClashes | src/libfootball/fb_parser.c:370-383 | whenever only the radix of two merged blanks differs, there are tokens, all read alike with either radix, after which the tree takes one of the two kinds of value and the pattern asks for the other |
| RadixErasure.EraseAdd | src/libfootball/fb_parser.c:434-549 | whatever the C code adds, its tree with radices forgotten is the one that the pattern with its radices forgotten gives, and no blank of another kind is merged then |
| RadixErasure.AddExtendsForgetful | src/libfootball/fb_parser.c:434-549 | so the C code's own adding, without any condition, adds just what the pattern denotes, up to radices |
| NumberTexts.ReadsDecimal | src/libfootball/fb_parser.c:651-660 | every long, written in decimal, is read as itself with and without radix detection |
| NumberTexts.ReadsHexadecimal | src/libfootball/fb_parser.c:651-660 | every long, written in hexadecimal, is read as itself with radix detection |
| NumberTexts.StopsAtHexadecimal | src/libfootball/fb_parser.c:651-660 | and without it scanning stops inside, so that it is no number |
| NumberTexts.ReadsDecimalThen | src/libfootball/fb_parser.c:651-660 | every number in decimal, however long, is read up to what is no digit, as the nearest long |
| NumberTexts.ReadsOctal | src/libfootball/fb_parser.c:651-660 | every long, written in octal, is read as itself with radix detection |
| CommandParser.SortByKeyAscending | src/libfootball/fb_parser.c:558-570 | sorting brings distinct keys into strictly ascending strcmp order |
| CommandParser.SortAllSorts | src/libfootball/fb_parser.c:558-570 | fb_sort_all leaves every node of the tree sorted, and well-formed |
| CommandParser.SortKeepsNodes | src/libfootball/fb_parser.c:558-570 | after sorting, every token list still leads to the node it led to before |
| CStrings.BSearchIsLFind | src/libfootball/fb_parser.c:246-252 | over keys in ascending order, bsearch and lfind find the same element |
| CommandParser.InterpretVerdict | src/libfootball/fb_parser.c:612-708 | walking the sorted tree by binary search, fb_interpret_recurse returns the verdict that following the tokens by linear search defines: response, incomplete, extra terms, bad keyword, number or range, and the term at fault |
| CommandParser.VerdictUnique | src/libfootball/fb_parser.c:612-708 | a token list has one verdict in a tree |
| CommandLanguage.CompiledMeans | src/libfootball/fb_parser.c:575-595 | if all sets of statements are added, with radices compared, the tree accepts with a response just what some definition with that response accepts, and can go on just where some definition can |
| CommandLanguage.InterpretIsExact | src/libfootball/fb_parser.c:575-720 | on such a tree fb_interpret gives an outcome if and only if the definitions explain it: a response for exactly the command lines of a definition, INCOMPLETE for viable unfinished ones, EXTRA_TERMS behind a command nothing extends, the keyword, number and range errors at the first term that makes the line unviable |
| CommandLanguage.OrderIrrelevant | src/libfootball/fb_parser.c:575-595 | of two parsers that compile, neither the order of statements nor how they are divided into sets makes any outcome differ |
| CommandLanguage.ViableIsExtendable | src/libfootball/fb_parser.c:619-701 | the viable prefixes that the errors speak of are those that can be typed on to a command, if no statement has a dead choice |
| CommandLanguage.ExtraTermsFollowCommand | src/libfootball/fb_parser.c:632-634 | the terms before those reported as extra are a complete command |
| CommandLanguage.MeansUnionIffNoRadixMerged | src/libfootball/fb_parser.c:370-383 | the tree actually built means what the definitions mean if and only if comparing the radix of merged blanks as well would have refused no statement |
| RadixOutcomes.CompiledServes | src/libfootball/fb_parser.c:575-595 | on every parser the C code builds, up to radices: the tree goes on wherever a definition does and completes its commands with its response, and no command line is for two definitions |
| RadixOutcomes.OnlyOneWay | src/libfootball/fb_parser.c:434-549 | no command line is accepted along a pattern both in a way where a number strays into a blank of another radix and in one where none does |
| RadixOutcomes.TenMisreads | src/libfootball/fb_parser.c:651-660 | where a decimal blank was merged with one that detects the radix, some beginning of a command ends in a number that is called bad |
| RadixOutcomes.AnyMisreads | src/libfootball/fb_parser.c:651-660 | where a blank that detects the radix was merged with a decimal one, some line is accepted that no definition allows |
| RadixOutcomes.OutcomesRightIffNoRadixMerged | src/libfootball/fb_parser.c:370-383 | fb_interpret gives the outcomes the definitions explain, on all command lines, if and only if comparing the radix of merged blanks as well would have refused no statement, for all sets of statements without dead choices |
| RadixExample.RadixMergeMisleads | src/libfootball/fb_parser.c:370-383 | two concrete statements that are both accepted, and a command line of the second that is then refused as not numeric |
| CommandLanguage.Parser.AddStatements | src/libfootball/fb_parser.c:575-595 | fb_parser_add_statements, in its loop, makes of the tree what compiling all sets so far makes, or reports a defective statement |
| CommandLanguage.Parser.InterpretLine | src/libfootball/fb_parser.c:715-720 | on the parser as built, the outcome says where the tokens lead in its tree, and where no blanks of different radix were merged it is the only one the definitions explain |
| WrittenCommands.AnswersWritten | src/libfootball/fb_parser.c:575-720 | for commands written as statements, on a parser without merged radices, fb_interpret returns a response if and only if the command with that response, as it was written, accepts the command line |
| WrittenCommands.StraightIsAdded | src/libfootball/fb_parser.c:434-549 | a node nothing was added to takes every pattern whose choices offer different words, whose optional words are told from what is behind them, and whose optional blank is the last |
| WrittenCommands.ApartAnswers | src/libfootball/fb_parser.c:575-720 | so statements of such commands that begin with different words are all accepted, and every command line gets the response of the one command that accepts it, or none |
| Messages.PendingAppend | src/libfootball/fb_message.c:123-140 | queueing a text adds it behind the bytes that are still to go |
| Messages.PendingConsume | src/libfootball/fb_message.c:147-163 | using up bytes takes exactly so many off the front of what is to go |
| Messages.MessageStore.NewMessage | src/libfootball/fb_message.c:44-57 | a new message has one reference, held by its maker, its own text, and changes no queue and no other message; live and free blocks stay apart |
| Messages.MessageStore.Hold | src/libfootball/fb_event.c:103-105 | one more reference, counted, and no text or queue changed |
| Messages.MessageStore.MessageFree | src/libfootball/fb_message.c:62-75 | one reference fewer; the text goes, and the block joins the free list, exactly when no queue node and no caller refers to it any more |
| Messages.MessageStore.QueueAdd | src/libfootball/fb_message.c:123-140 | the caller's reference passes to the end of one queue, and all other queues stay as they were |
| Messages.MessageStore.QueueConsume | src/libfootball/fb_message.c:147-163 | one queue loses bytes at the front and, with the last of a message, the node and the reference; nothing else changes |
| Messages.MessageStore.QueueDestroy | src/libfootball/fb_message.c:169-182 | one queue loses all its nodes and references, but keeps the count of bytes used of its first message; texts held elsewhere stay |
| Messages.NewBlockValid | src/libfootball/fb_message.c:44-57 | making a block keeps every use count equal to the references there are, and the free list to the blocks with none |
| Messages.DropBlockValid | src/libfootball/fb_message.c:62-75 | so does dropping a reference, whether or not it is the last |
| Messages.AttachBlocksValid | src/libfootball/fb_message.c:123-140 | so does turning a caller's reference into a node's |
| Messages.DetachBlocksValid | src/libfootball/fb_message.c:147-163 | so does taking a node away |
| Messages.DestroyNodesValid | src/libfootball/fb_message.c:169-182 | after a queue's list joined the free list as a whole, each node is still in one place only |
| WebSocket.FrameReads | src/libfootball/fb_http.c:642-721 | a frame with anything behind it reads, by section 5.2 of RFC 6455 with minimal length fields, as its payload and what is behind, for payloads below 2^32 bytes |
| WebSocket.HugeFrameMisreads | src/libfootball/fb_http.c:684-689 | a longer payload never reads back: at best something shorter is read |
| WebSocket.FramesReadBack | src/libfootball/fb_http.c:642-721 | a sequence of frames reads back as the payloads if and only if all are below 2^32 bytes |
| WebSocket.LinesAppend | src/libfootball/fb_http.c:642-721 | splitting text into finished lines and a tail can be done bit by bit |
| WebSocket.LinesPartition | src/libfootball/fb_http.c:642-721 | finished lines, each with its newline, and the tail make up the text, and no line holds a newline |
| Output.Connection.SendOnce | src/libfootball/fb_event.c:230-271 | whatever part of the first message the socket takes, bytes sent and bytes queued still make up everything produced; a failed send starts closing |
| Output.Connection.Send | src/libfootball/fb_event.c:206-276 | the same for the whole sending loop, which ends |
| Output.Connection.QueueHttp | src/libfootball/fb_http.c:89-105 | HTTP text is added to what a connection is to be sent |
| Output.Connection.TakeLine | src/libfootball/fb_http.c:695-710 | a line is copied out of the assembly queue, over any number of messages, and its newline skipped |
| Output.Connection.QueueFrame | src/libfootball/fb_http.c:670-713 | the payload goes out as a frame with the header of section 5.2 |
| Output.Connection.WebsocketEncode | src/libfootball/fb_http.c:642-721 | every finished line of the assembly queue goes out as one frame, in order, and exactly the unfinished tail stays |
| Output.Connection.QueueSingle | src/libfootball/fb_event.c:64-86 | an open or flushing connection that is no file takes the text: what is sent and queued grows by just it, or in a WebSocket session by one frame for every line it finishes; any other connection gets nothing; the caller's reference is used up either way, and no other queue or held text changes |
| Output.Connection.SessionReadsBack | src/libfootball/fb_http.c:642-721 | in every state a WebSocket session can be in before a failed send: what was sent and what is queued, behind the HTTP answer, unframes to exactly the finished lines of all the text, if and only if none is 2^32 bytes long, and the assembly queue holds the rest |
| Output.Service.Broadcast | src/libfootball/fb_event.c:95-114 | so does every connection of the service with a broadcast text, once, by reference, and the creator's reference is gone afterwards |
| Output.Service.Accept | src/libfootball/fb_event.c:569-597 | a connection that comes in gets empty queues of its own and is listed last, and the connections already there go on as they were |
| Lifecycle.ProperLog | src/libfootball/fb_event.c:437-561 | what a proper run of events promises of a connection: at most one CONNECT, input only after it, at most one CLOSE, nothing after that |
| Lifecycle.RemoveConnection | src/libfootball/fb_service.c:388-399 | the in-place shift takes one connection out of the array and keeps the order of the others |
| Lifecycle.SocketManager.Arrive | src/libfootball/fb_event.c:569-597 | a new connection is listed once, with its service, and announced if it need not greet first |
| Lifecycle.SocketManager.ShakeHands | src/libfootball/fb_event.c:462-480 | a fatal handshake destroys the connection silently, a finished one goes on to the greeting |
| Lifecycle.SocketManager.ReadFirstLine | src/libfootball/fb_event.c:482-532 | greeting, HTTP request, fallback (announced first, its command put off), unknown service and unknown command, each with its events and next state |
| Lifecycle.SocketManager.ReadHeaderLine | src/libfootball/fb_http.c:1164-1229 | the end of a header answers the request, tries again or opens the session with CONNECT, even right after a failed send |
| Lifecycle.SocketManager.ReadSession | src/libfootball/fb_event.c:543-551 | a line of an open session is an INPUT event, a broken connection starts flushing |
| Lifecycle.SocketManager.ReadInput | src/libfootball/fb_event.c:454-561 | in every state the events stay proper, and flushing and closing connections give no input |
| Lifecycle.SocketManager.SendOutput | src/libfootball/fb_event.c:206-224 | a drained flushing connection gives CLOSE and is destroyed only on the next turn; nothing else gives CLOSE or destroys |
| Lifecycle.SocketManager.QueueSingle | src/libfootball/fb_event.c:64-86 | output is accepted exactly in the states open and flushing and not for files, so never after CLOSE |
| Lifecycle.SocketManager.CloseConnection | src/libfootball/fb_service.c:486-497 | closing sets a connection in any state but closing to flushing, and leaves the others alone |
| Lifecycle.SocketManager.CloseService | src/libfootball/fb_service.c:235-256 | closing a service closes each of its connections and no other |
| Lifecycle.SocketManager.Transfer | src/libfootball/fb_service.c:405-424 | a connection moves to the end of another service's list and is in no other |
| Lifecycle.SocketManager.Destroy | src/libfootball/fb_service.c:449-479 | a connection is destroyed only when it was never announced or has had its CLOSE |
| Lifecycle.SocketManager.PollQueued | src/libfootball/fb_socketmgr.c:369-373 | an event put off is given out before anything else is looked at |
| Lifecycle.SocketManager.RunIsProper | src/libfootball/fb_event.c:206-597 | over every run: a connection announced by CONNECT and gone had exactly one CLOSE; one with a CLOSE and still there is closing; after CLOSE there is no event of it at all |
| ChildIndex.HopArrives | src/libezxml/ezxml.c:69-73 | following the links between same-named children arrives at the places of the name in turn |
| ChildIndex.KindHopArrives | src/libezxml/ezxml.c:60-65 | following the links between siblings arrives at the first child of every name in turn |
| ChildIndex.SiblingsAreFirsts | src/libezxml/ezxml.c:849-888 | the sibling pointers from the first child on lead to exactly those first children |
| ChildIndex.Child | src/libezxml/ezxml.c:60-65 | ezxml_child finds the first child of a name, or none |
| ChildIndex.Idx | src/libezxml/ezxml.c:69-73 | ezxml_idx goes to the k-th of that name, or off the end |
| ChildIndex.NthChild | src/libezxml/ezxml.c:60-73 | ezxml_idx (ezxml_child (x, n), k) is the k-th of all children named n |
| ChildIndex.LinkOrdered | src/libezxml/ezxml.c:858-863 | the new child comes last in document order |
| ChildIndex.LinkNext | src/libezxml/ezxml.c:871-875 | the new child comes last among those of its name |
| ChildIndex.LinkSibling | src/libezxml/ezxml.c:876-883 | the first child of a new name comes last among the first children |
| ChildIndex.NextLinksGrow | src/libezxml/ezxml.c:871-875 | with only the last child of the name linked anew, all links between same-named children are right for the longer list |
| ChildIndex.SiblingLinksGrow | src/libezxml/ezxml.c:876-883 | with only the last first child linked anew, and only for a new name, all sibling links are right for the longer list |
| ChildIndex.Insert | src/libezxml/ezxml.c:849-888 | inserting a child that stands no earlier than the others keeps all three ways of linking children right |
| ChildIndex.OpenTag.AddChild | src/libezxml/ezxml.c:221-230 | the parser adds each child where the text has got to, so document order is kept by itself |
| ChildIndex.OpenTag.Get | src/libezxml/ezxml.c:60-73 | in every tag so built, the k-th child of a name is found, or none |
| Chunked.Request.HandleChunked | src/libwaitress/waitress.c:692-753 | the handler, which hands content over block by block, does what decoding byte by byte does, unless the callback refuses a block, and then has handed over a prefix |
| Chunked.FeedHex | src/libwaitress/waitress.c:702-709 | a size below 2^64 in lower-case hexadecimal is read as itself |
| Chunked.DecodesEncoded | src/libwaitress/waitress.c:692-753 | any list of non-empty chunks, encoded by section 4.1 of RFC 7230 with lower-case sizes below 2^64, decodes to their concatenation and is then done, whatever follows |
| Chunked.BreaksOff | src/libwaitress/waitress.c:702-723 | where something else stands than a size in lower-case hexadecimal, decoding breaks off with the content of the chunks before it |
| Chunked.PayloadGrows | src/libwaitress/waitress.c:692-753 | content already handed over is never taken back |
| Chunked.Request.ReceiveBody | src/libwaitress/waitress.c:1162-1204 | over any sequence of reads, with a length announced or not, chunked or not: unless refused, the callback gets the content of exactly the bytes taken, as if they had come at once, with the result they call for |
| Chunked.UsedIsFirst | src/libwaitress/waitress.c:1194-1199 | reading stops at the first whole number of reads that brings the announced length, or at the end |
| Chunked.TakenIsPrefix | src/libwaitress/waitress.c:1190-1204 | what is taken is a beginning of the stream, and all of it if no length was announced |
| Chunked.IdentityTakesLength | src/libwaitress/waitress.c:1194-1199 | a plain body shorter than announced is taken whole; any other up to the announced length at least, and exactly if and only if some read ends there |
| Chunked.WholeWhateverTheCuts | src/libwaitress/waitress.c:1194-1199 | however reads cut it, a plain body is taken whole if and only if it is no longer than announced |
| Chunked.CutsMatterWithLength | src/libwaitress/waitress.c:1194-1199 | three bytes with two announced, cut in two ways: one gives two bytes, the other three |
| Chunked.ChunkedTakesLength | src/libwaitress/waitress.c:1194-1199 | of a chunked body with a length announced, a beginning of the content is taken, and where reading stops early at least that much |
| Chunked.HonestLengthTakesAll | src/libwaitress/waitress.c:1162-1204 | an announced length that is that of the content loses nothing of it, chunked or not, however reads cut the stream |
| Chunked.Request.FetchBody | src/libwaitress/waitress.c:1284-1299 | a fetch succeeds if and only if the body is right and brought as much as was announced |
| Headers.Getline | src/libwaitress/waitress.c:650-668 | the line at a place in the buffer is cut off without its line end, if it is complete, and the rest of the buffer stays |
| Headers.FoundInBuffer | src/libwaitress/waitress.c:1093-1145 | a line complete in the buffer is the next line of the stream, whatever is still to come |
| Headers.NotFoundInBuffer | src/libwaitress/waitress.c:1083-1088 | a full buffer, or the end of the stream, without a complete line is a connection closed too early |
| Headers.HandleLines | src/libwaitress/waitress.c:1093-1145 | all complete lines in the buffer are handled in order, and the incomplete rest is left |
| Headers.ReceiveHeaders | src/libwaitress/waitress.c:1073-1156 | however reads cut the stream, the headers come out as taking it line by line defines, and buffer and unread stream together hold exactly the body |
| Headers.ReceiveTwice | src/libwaitress/waitress.c:1073-1156 | two ways of cutting a stream give the same response or error and the same body bytes |
| HeaderTexts.LineIsHandled | src/libwaitress/waitress.c:650-668 | a line ended by a newline, with a carriage return or without, is handled as that line, and then what is behind it |
| HeaderTexts.StatusDecides | src/libwaitress/waitress.c:1095-1121 | a status line of HTTP 1.0 to 1.9 with any status of three digits is read: 200 and 206 go on to the headers, 400, 403 and 404 are the errors they say, all others unknown |
| HeaderTexts.HeaderIsRead | src/libwaitress/waitress.c:755-771 | a header written with its key in any case and any whitespace behind the colon says its length, or that the body is chunked, or nothing of concern |
| HeaderTexts.HeadIsRead | src/libwaitress/waitress.c:1073-1156 | a whole head written so is read back: the last length it gives, whether the body is chunked, and where the body begins |
| ThreadQueue.Queue.GetNode | src/threadqueue.c:16-29 | a spare node is used first, and is then in neither list |
| ThreadQueue.Queue.ReleaseNode | src/threadqueue.c:31-43 | a node is kept as a spare only while all nodes together stay within 32 |
| ThreadQueue.Queue.Add | src/threadqueue.c:67-95 | a message goes to the end, and the condition is signalled to all waiters if it is the first |
| ThreadQueue.Queue.Get | src/threadqueue.c:97-126 | a call takes the oldest message at once, or waits because there is none |
| ThreadQueue.Queue.Wake | src/threadqueue.c:124-143 | a thread coming back takes the oldest message, waits again, or reports its timeout, and then takes nothing even if there is a message |
| ThreadQueue.Queue.Unlink | src/threadqueue.c:134-143 | the first node leaves the list with its message, and last and length follow |
| ThreadQueue.Queue.IsFifo | src/threadqueue.c:16-152 | what Add, Get and Wake keep comes to this for every interleaving: messages given out, then those still queued, are those added, in order; while one is queued every waiter has been signalled; the pool is empty or pool and queue together have at most 32 nodes |
| PlayerRuns.RunKeepsInv | src/pianod.c:436-556 | in every state of every run: thread, mode and current song belong together; a thread asleep unsignalled has reason to be; the pause flag says what the playback state does; the history holds the newest songs that went into it |
| PlayerRuns.CancelEndsSong | src/player.c:60-84 | in every run: once a song is cancelled, the first check that finds the decoder far enough makes the thread give up, and from then to its cleanup it is the same song, nothing is checked or decoded and no frame played |
| PlayerRuns.OneMoreFrame | src/player.c:202-236 | in every run: while an order to stop or to pause is in force, at most one more frame of the song is played |
| PlayerRuns.PauseHolds | src/command.c:383-440 | in every run: from a PAUSE given to a live player until a PLAY, PLAYPAUSE or the cleanup of the song, the pause is in force, a check that finds it waits unless the song is cancelled, and at most one more frame is played |
| PlayerRuns.PlayResumes | src/command.c:383-440 | a PLAY given to a live player takes the pause back and wakes the thread, whose next check goes on unless the song is cancelled |
| PlayerRuns.NobodySleepsThrough | src/player.c:60-84 | in every run: a thread that sleeps unsignalled has checked again since every command and cancel there was |
| PlayerRuns.SongsAccounted | src/pianod.c:81-239 | in every run: all songs ever fetched are, with their number, in the playlist, current, in what went into the history or let go; those not let go stand in the order in which they came, and the playlist is the last of them |
| PlayerRuns.OnePlaceOnly | src/pianod.c:81-239 | so if no node is fetched twice, every song is in one of these places, and there once |
| PlayerRuns.HistoryIsNewest | src/support.c:200-222 | in every run in which its length is not changed and not 0, the history is the newest songs played, as many as it may hold |
| PlayerRuns.CleanupFills | src/support.c:200-222 | after its length was changed, every song that ends brings the history one closer to being full, or cuts it to its length |
| PlayerRuns.PurgedIsRest | src/support.c:231-264 | what is purged is unsuitable songs at the front of the playlist, up to the first suitable one |
| PlayerRuns.SomeRunRuns | src/pianod.c:436-556 | there are such runs: one in which a station is chosen, a song played a little, cancelled and put into the history |
| PlayerLoop.App.CheckPauseQuit | src/player.c:60-84 | a check quits exactly if the song is cancelled and the mode is far enough, and waits exactly if it is to pause and not to quit; it is a step of the run |
| PlayerLoop.App.ControlPlayback | src/command.c:383-440 | PLAY plays, PAUSE pauses and PLAYPAUSE does the other, for the player as well if there is one, whose thread is woken and whose pause is timed from its start; refused, without effect, just where there is neither player nor station |
| PlayerLoop.App.CancelPlayback | src/support.c:622-637 | a cancel takes its step of the run, holds and wakes the thread if it is at work, and ends the timing of a pause |
| PlayerLoop.App.PrependHistory | src/support.c:200-222 | the loop over the history leaves the newest songs up to its length; of length 0 it stays as it is |
| PlayerLoop.App.PlaybackCleanup | src/pianod.c:190-239 | the song leaves the player to be the newest of the history, which keeps to its length; a hard error, or the second soft one in a row, loses the station; player and thread are gone |
| PlayerLoop.App.PurgeUnselectedSongs | src/support.c:231-264 | the loop drops the songs in front that are not of the selected station, or not in the mix, up to the first that is |
| PlayerLoop.App.PlaybackStart | src/pianod.c:111-185 | the first song leaves the playlist and is played by a new thread with nothing paused or cancelled, or thrown away if it has no address |
| PlayerLoop.App.PlayNext | src/pianod.c:464-525 | a song starts if and only if nobody wants the program to end, there is a station, the listeners agree and do not pause, and the first suitable song, of a new playlist if need be, has an address; it is that song |
| PlayerLoop.App.CheckPlayerStatus | src/pianod.c:357-418 | near the end of a song the playlist is purged and filled in advance, and a pause beyond its limit becomes a cancel; otherwise both stay |
| PlayerLoop.App.NothingLost | src/pianod.c:81-239 | so in every state the program reaches, its playlist, song, history and what it let go account for everything fetched |
| LamerCipher.CrcIsLinear | src/lamercipher.c:52-100 | compute_crc with a remainder below 2^31 is compute_crc with remainder 0, exclusive-or that remainder |
| LamerCipher.CrcChecksItself | src/lamercipher.c:86-100 | a remainder makes compute_crc 0 if and only if it is the string's own checksum |
| LamerCipher.CrcRemains | src/lamercipher.c:52-100 | a checksum is below 2^31, for every string, divisor and remainder |
| LamerCipher.MaskMeetsBit | src/lamercipher.c:68-86 | the mask shifted down meets the bits of a value one by one |
| LamerCipher.ComputeCrc | src/lamercipher.c:52-100 | the loops compute the remainder that dividing bit by bit defines |
| LamerCipher.DivideAdds | src/lamercipher.c:69-80 | the checksum is what polynomial division leaves: dividing a sum leaves the sum of what is left of both, |
| LamerCipher.ShortIsLeft | src/lamercipher.c:81-90 | 31 bits are left as they are, |
| LamerCipher.DivisorLeavesNothing | src/lamercipher.c:81-90 | the divisor leaves nothing, |
| LamerCipher.BytesAreLeft | src/lamercipher.c:69-80 | and three bytes of a string go in bit by bit, the highest first |
| LamerCipher.BitsByValue | src/lamercipher.c:114-123 | bytes from 0x20, 0x40 and 0x80 on use 5, 6 and 7 bits of the key, others none |
| LamerCipher.EnciphersBits | src/lamercipher.c:125-126 | enciphering flips, of so many low bits, those that are set in the key, and no others |
| LamerCipher.RotatesBits | src/lamercipher.c:127-127 | and turns the 31 bits of the key down by as many places, round to the top |
| LamerCipher.EncipherKeepsKind | src/lamercipher.c:114-128 | an enciphered byte is of the same kind, so uses as many key bits, and is not NUL |
| LamerCipher.CipherTwice | src/lamercipher.c:110-134 | enciphering twice with the same key gives back every item |
| LamerCipher.CipherKeepsKinds | src/lamercipher.c:110-134 | every byte keeps its kind, so none becomes NUL or a control character |
| LamerCipher.LamerCipherTwice | src/lamercipher.c:102-134 | for every key string and item: deciphering undoes enciphering, a string stays a string of equal length, and control characters appear only if there were some |
| LamerCipher.LamerCipher | src/lamercipher.c:110-134 | the loop over the copy computes that cipher, and meets its assertion exactly on control characters |
| Sha1.HashWhole | src/libfootball/sha1.c:184-206 | a message hashes as its whole blocks, and then what was left over with what comes after |
| Sha1.PaddingFits | src/libfootball/sha1.c:343-389 | the padding is the least that fills the last block |
| Sha1.LengthStep | src/libfootball/sha1.c:189-198 | the two length words count bits up to 2^64, and are both 0 again exactly there |
| Sha1.RotatesBits | src/libfootball/sha1.c:34-38 | the circular shifts move every bit up by 1, 5 and 30 places, round to the bottom |
| Sha1.RotatesBack | src/libfootball/sha1.c:34-38 | five shifts by one are the shift by five, and two with the one by thirty turn a word all the way |
| Sha1.ChoosesBits | src/libfootball/sha1.c:270-271 | the first word function chooses between two words bit by bit |
| Sha1.VotesOnBits | src/libfootball/sha1.c:290-292 | the third goes by the majority, bit by bit |
| Sha1.OctetsAreWord | src/libfootball/sha1.c:249-255 | a word written as octets is read back |
| Sha1.LengthDigit | src/libfootball/sha1.c:377-388 | the last eight octets of the padding are the digits of the 64-bit number of bits |
| Sha1Example.DigestOfAbc | src/libfootball/sha1.c:101-309 | the digest of "abc" is the one that section 7.3 of RFC 3174 gives |
| Sha1.Context.ProcessMessageBlock | src/libfootball/sha1.c:232-308 | the six loops compute the block function of section 6.1 of RFC 3174 |
| Sha1.Context.InputOctet | src/libfootball/sha1.c:184-206 | one octet is hashed or kept in the block and counted; the context is corrupted exactly at 2^64 bits |
| Sha1.Context.Input | src/libfootball/sha1.c:159-209 | any piece of a message adds to it, with the statuses for empty input, input after the result and too long messages |
| Sha1.Context.PadMessage | src/libfootball/sha1.c:343-389 | in one block or two, the padded message of section 4 is hashed to its end |
| Sha1.Context.Result | src/libfootball/sha1.c:101-137 | the digest of everything put in since the reset, the same every time; an error if the context is corrupted |
| Sha1.DigestOfPieces | src/libfootball/sha1.c:101-209 | however a message below 2^64 bits is cut up, its digest is that of the whole, and the same when asked for again |
| SkipLimiter.GrantKeepsLimit | src/support.c:598-606 | one more grant, where the period before it holds fewer than six, keeps every period at six or fewer |
| SkipLimiter.CountLater | src/support.c:552-556 | a period that ends later holds no more of the grants there are |
| SkipLimiter.Limiter.CountRecent | src/support.c:572-596 | the scan counts exactly the unexpired grants of a station, and cutting the list at the first expired entry loses expired ones only |
| SkipLimiter.Limiter.SkipsAreAvailable | src/support.c:560-617 | a skip is granted if and only if fewer than six of the station are unexpired, and refused only at six; the numbers reported are right |
| SkipLimiter.Limiter.NeverMoreThanSix | src/support.c:551-617 | what SkipsAreAvailable keeps comes to this for a whole run with a clock that does not go back: no period (t-3600, t] holds more than six grants of a station |
| Tuner.RatingsAgree | src/tuner.c:88-104 | binary search in the sorted records reads what a finite map with default neutral says |
| Tuner.OpinionKept | src/tuner.c:88-104 | sorted records hold a finite map, which is read off them record by record |
| Tuner.KeepsOpinion | src/tuner.c:88-104 | and only that one, so that a user's records say what the ratings given to that user made of the map |
| Tuner.InsertKeeps | src/tuner.c:138-153 | a record put in at its place adds just that entry to the map |
| Tuner.Preferences.MakeGap | src/tuner.c:140-147 | the loop from the end makes a gap at the place where a new station belongs |
| Tuner.Preferences.SetStationRating | src/tuner.c:107-153 | exactly one rating changes; one that was never given and is to be neutral is not recorded |
| Tuner.RevisedRates | src/tuner.c:107-115 | so every other station is rated as before |
| Tuner.ApplyStationRatings | src/tuner.c:297-321 | the flags of all stations tell of what one user more thinks by the map behind the records, if that user has influence |
| Tuner.TuneBasedOnLogins | src/tuner.c:325-344 | the flags tell of all influencing users logged in on open connections, in whatever order and however often |
| Tuner.TuneBasedOnAttribute | src/tuner.c:348-363 | the flags tell of all influencing users marked as present |
| Tuner.TryAlgorithm | src/tuner.c:417-435 | a station is included exactly if it suits by the algorithm, and whether any does is found |
| Tuner.Choose | src/tuner.c:414-439 | the algorithm settled on is the first that finds a station |
| Tuner.HatedNeverSuits | src/tuner.c:365-372 | a station any influencing listener rates bad is in no mix |
| Tuner.SuitsLessAndLess | src/tuner.c:365-372 | each algorithm asks for less than the one before it, and without anyone having a say every station will do |
| Tuner.Autotuner.RecomputeStations | src/tuner.c:375-469 | going by the maps behind all records: with listeners, the mix becomes the first non-empty of what everyone likes, what some like and none hates, what none hates, else it stays and is flagged; without listeners or in manual mode it stays |
| XmlText.FPrintXml | src/users.c:779-812 | what is written is the literals as they are, with a piece between each two that holds no quote or angle bracket and is read back, through both passes of the decoder, as the value, if that has no whitespace but spaces |
| XmlText.EscapedHasNoMarkup | src/users.c:779-812 | nothing written for a value holds a quote or an angle bracket |
| XmlText.QuotedIsRead | src/libezxml/ezxml.c:516-523 | a text without quotes and angle brackets, written between quotes, is read to its end and no further |
| XmlText.PieceIsRead | src/libezxml/ezxml.c:516-523 | so a value that was printed, with quotes around it, is read back as that value and no further |
| XmlText.ReturnIsNormalized | src/libezxml/ezxml.c:163-168 | a carriage return becomes a newline, |
| XmlText.PairIsNormalized | src/libezxml/ezxml.c:163-168 | and takes a newline behind it along |
| XmlReferences.ReferenceIsRead | src/libezxml/ezxml.c:174-187 | a reference by its code, in decimal or hexadecimal, to a character of 7 bits is read as that character, whatever is behind it |
| XmlReferences.ReferenceIsDecoded | src/libezxml/ezxml.c:174-187 | and decoded to it |
| XmlText.NormalizedEscaped | src/libezxml/ezxml.c:163-168 | normalizing line ends and escaping are independent |
| XmlText.NormalizeLineEnds | src/libezxml/ezxml.c:163-168 | the two loops over the buffer make every carriage return, with a newline behind it, a newline |
| XmlText.EntityShrinks | src/libezxml/ezxml.c:189-204 | replacing an entity by its character reference leaves fewer ampersands that could start one, so decoding ends |
| XmlText.DecodeOfEscaped | src/libezxml/ezxml.c:158-218 | decoding what was written gives the value, with every whitespace character a space |
| XmlText.WrittenIsReadBack | src/libezxml/ezxml.c:158-218 | what was written, through both passes of the decoder, is the value if and only if the only whitespace in it is the space |
| XmlText.Splice | src/libezxml/ezxml.c:194-203 | a stretch of text is replaced in place, or in a new buffer of just the right size where it grows |
| XmlText.EzxmlDecode | src/libezxml/ezxml.c:158-218 | both passes over the buffer, with their moves and reallocations, compute that normalizing and decoding |

## Left out

- Sockets, select, TLS, files, DNS, signals and audio output: what they return is a parameter or any value at all.
- Allocation failure: every allocation succeeds.
- Commands, their dispatch and formatting, Pandora requests, id3 tags, the shoutcast client and the scripts.
- The trie is a value that adding rebuilds, not nodes changed in place; so is the sorting of children. Argument names recorded beside named choices are not followed.
- strtod is any function that scans what it used to the same number; ranges of reals are taken over real numbers.
- Responses are positive, as the header of the parser asks of its users.
- The connection that Output follows to the last byte and the one that Lifecycle follows through its states are two views of FB_CONNECTION; the second knows only whether output is queued.
- Output.Connection.Send: models nothing sent after the first failed send, because fb_queue_destroy keeps the count of bytes used (src/libfootball/fb_message.c:169-182) and what the next message then loses is not followed.
- Output.Connection.SessionReadsBack: says nothing once a send has failed, for the same reason.
- Reading WebSocket frames, PING and CLOSE replies and unmasking (src/libfootball/fb_http.c:497-606).
- Reaping of closed services and the STOPPED event; which ready connection comes next is free.
- ezxml_cut (src/libezxml/ezxml.c:966-997).
- ChildIndex.Insert: requires document order; the one caller, the parser (src/libezxml/ezxml.c:225), goes through the text in that order, and the branches for an earlier offset (src/libezxml/ezxml.c:864-868, 876-879) are not modelled.
- XmlText.EzxmlDecode: requires that the text does not end in a carriage return, or in one and a newline, because the first pass (src/libezxml/ezxml.c:163-168) then goes on behind its end. Bytes for character codes outside 1 to 127 are a parameter.
- Entities declared in a document, decoding for text content and for non-CDATA attributes.
- Chunked.IdentityTakesLength: counts bytes without wrapping, so it is about streams below 2^64 bytes.
- Chunk sizes in upper case and chunk extensions, which RFC 7230 allows: the handler takes them for errors, and so does the model.
- The URL splitter, Base64, percent-encoding and UTF-16 conversion.
- ThreadQueue.Queue.Wake: does not model errors of pthread_cond_timedwait other than ETIMEDOUT, on which the loop tries again.
- Decoding and playing in the player thread, apart from its modes, its checks and how many frames were played; stalls and replay gain.
- The order of the main loop between the parts that PlayerLoop has methods for: runs may take their steps in any order that their conditions allow.
- Output.Connection.WebsocketEncode: takes texts for C strings, as vasprintf makes them; behind a NUL, strchr (src/libfootball/fb_http.c:652) would find no newline.
- CommandTrie.AddExtends: speaks of adding that compares the radix of blanks as well, and so do the lemmas for its cases; what holds of the C code without that is RadixErasure.AddExtendsForgetful.
- CommandLanguage.OrderIrrelevant: takes both orders to compile; that one compiles whenever the other does is not shown.
- Which term is reported as missing from an incomplete command line (src/libfootball/fb_parser.c:618-625).
- PlayerLoop.App.PlayNext: leaves out the announcements after a song is started, which assert that there is one (src/tuner.c:196) even when it was thrown away for want of an address.
- Null pointers as arguments of the SHA-1 functions.
- PatternTexts.WrittenIsRead: does not write blanks for ranges of reals, as strtod is any function; PatternTexts.RealsAccept takes their bounds as texts that it reads.
- WrittenCommands.ApartAnswers: takes commands that begin with different words, and of words that may be left out only such as a bare word follows; what other statements come to, if they compile, is WrittenCommands.AnswersWritten.
