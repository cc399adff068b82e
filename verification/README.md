# A verified model of the wsdd-native daemon

wsdd-native is a single-threaded WS-Discovery daemon. This project models its state machines
and parsers in Dafny and proves what they promise, over every input and every run. Each
component is one or two files:

| file | component |
|---|---|
| `PidFile.dfy`, `PidFileOpen.dfy` | the pid file protocol of any number of processes, and the loop of `PidFile::open` among them |
| `Netlink.dfy`, `InterfaceMonitor.dfy` | netlink notifications: what they mean, and the loops over the receive buffer |
| `RouteSocket.dfy` | routing socket framing with a tail carried between reads |
| `HttpParser.dfy`, `HttpGrammar.dfy` | the byte-at-a-time request parser, and the exact language it accepts |
| `HttpHeaders.dfy`, `HttpConnection.dfy`, `HttpFraming.dfy` | header look-up, one connection, and what reaches the XML parser |
| `HttpServer.dfy` | the connection table and its garbage-collection timer |
| `WsdServer.dfy` | start, graceful stop and stop over repeated datagrams |
| `MessageWindow.dfy` | the duplicate filter |
| `Placeholders.dfy`, `TreeWalk.dfy` | placeholder expansion, and the stackless walk over a metadata document |
| `LineReader.dfy`, `ColorStripper.dfy` | the bounded line splitter, and removal of control sequences |

Code that changes things step by step is modelled by classes and methods with the same
fields, loops and branches; each method is proved against a function of the old state, and the
results below are lemmas about those functions. The protocols (pid file, connection table,
discovery server) are state machines whose steps are the atomic actions of the daemon and of
its environment; their results hold for every sequence of enabled steps.

What the environment may do is a parameter or a step: the kernel picks any free descriptor and
any free inode; reads return any non-empty part of what is there; the XML parser and the request
handler answer in any way that depends on what they were given; timers and sends complete in
any order. Sends and delays are cancelled only by closing the sockets. Files are locked through
open file descriptions, so a forked child shares the lock.

Where code and documentation differ, the code is modelled and the difference is stated exactly:

- a lone `$` in a template takes the character after it along, while `config/metadata/README.md:52`
  says only the `$` is dropped (`Placeholders.DocumentedIff`);
- a minor version may be spelled with a leading zero and then any digit, because the bound check
  wraps around (`HttpParser.AddDigitExactIff`, `HttpGrammar.AcceptsExactlyTheGrammar`,
  `HttpGrammar.MinorFiveExample`);
- a request that announces an empty body is not answered until another byte arrives
  (`HttpFraming.AnsweredOnTimeIff`, `HttpFraming.EmptyBodyWaits`, `HttpFraming.PostAnsweredIff`);
- two waits of the collection timer can be live at once (`HttpServer.RaceLeavesTwo`); there is
  exactly one throughout a run if and only if no connection comes in while the table is empty and
  an expiry is queued (`HttpServer.OneWaitIff`).

## Model

| member | source | states |
|---|---|---|
| PidFile.MutualExclusion | src/pid_file.h:26-63 | over every interleaving of opening, locking, checking, writing, unlinking, closing, crashing and forking processes, at most one holds a path; the path names the inode it has locked, and the file holds exactly its pid |
| PidFile.UnlinksOnlyItsOwn | src/pid_file.h:52-63 | when a destructor unlinks, the path still names the inode that process has locked with its own pid in it, and every other holder keeps its file |
| PidFile.RetriesArePaid | src/pid_file.h:26-43 | the retries of one open never outnumber the unlinks of the run |
| PidFile.StaleMeansUnlinked | src/pid_file.h:34-43 | the inode comparison fails only if something was unlinked between that attempt's open and its check |
| PidFile.StepKeeps | src/pid_file.h:13-78 | every single step of any process keeps the invariant behind these results |
| PidFile.PidTextTells | src/pid_file.h:74-75 | different processes write different texts |
| PidFileOpen.Kernel.Open | src/pid_file.h:26-48 | with any finite behaviour of the others between its system calls, open returns; on success the process has the lock, the path names its inode and holds its pid; it fails only at the lock call, because the inode is locked through another description that some process refers to; if the others do nothing it succeeds exactly when the path leads to no locked inode; each retry used up a step of the others |
| PidFile.LocksHaveHolders | src/pid_file.h:52-63 | over every run, crashes and forks included, a lock exists only while some process refers to its description |
| PidFileOpen.Kernel.SetPidFile | src/app_state.cpp:233-243 | afterwards the process holds the new path, or nothing if none is configured; it reports another copy only when the lock was refused, exactly when the path's inode is locked if the others do nothing, and then what it held before is untouched |
| PidFileOpen.Kernel.Release | src/pid_file.h:52-63 | a forked copy changes no directory entry; the owner unlinks |
| Netlink.AttributesOverMessages | src/interface_monitor_linux.cpp:182-210 | run past its own message, the attribute loop takes nothing from any messages that follow, in either byte order |
| Netlink.AttributesConfined | src/interface_monitor_linux.cpp:160-210 | an address message whose attributes tile it yields the same label and address whether or not messages follow it in the buffer |
| Netlink.ParseIsExpected | src/interface_monitor_linux.cpp:112-175 | parsing messages laid end to end is looking at each of them alone, in order, up to the first done, error or overrun message |
| Netlink.PrintedMessage | src/interface_monitor_linux.cpp:146-210 | an encoded address message reports exactly what its positions say: no flag of bits 3 to 6; the first four bytes of the last local-address attribute for IPv4, the first sixteen of the last fe80::/10 address attribute for IPv6; the last label up to its NUL, or the interface's own name |
| Netlink.MeaningIff | src/interface_monitor_linux.cpp:177-220 | the scan over the attributes finds the last attribute that gives an address and the last label |
| Netlink.ShownIff | src/interface_monitor_linux.cpp:222-245 | a removal is always made known, an addition only on a multicast interface that is no loopback |
| Netlink.NothingShown | src/interface_monitor_linux.cpp:146-170 | a message that says nothing makes nothing known |
| Netlink.ByteOrder | src/interface_monitor_linux.cpp:116-125 | how lengths and kinds are read in either byte order |
| Netlink.PrintedBuffer | src/interface_monitor_linux.cpp:112-245 | a buffer of encoded address messages, with messages of other kinds between them, up to a done, error or overrun message followed by any messages or to its end, yields exactly their add and remove events, in order, and the status of what ended it; the interface cache changes nothing when flags belong to interfaces |
| Netlink.AttributesStayInside | src/interface_monitor_linux.cpp:182 | in a buffer of whole words no attribute step leaves the buffer, so the remaining size never wraps |
| Netlink.ParseStaysInside | src/interface_monitor_linux.cpp:116-173 | the same for the whole message loop, with the 32-bit wrap-around of the aligned length |
| Netlink.EndsAtDone | src/interface_monitor_linux.cpp:131-138 | whatever comes before it, nothing behind a done, error or overrun message changes the outcome |
| InterfaceMonitor.InterfaceMonitorImpl.ScanAttributes | src/interface_monitor_linux.cpp:177-210 | the cursor loop computes the attribute function that `Netlink.MeaningIff` describes, with the remaining size a natural number throughout |
| InterfaceMonitor.InterfaceMonitorImpl.ParseAddress | src/interface_monitor_linux.cpp:146-170 | what follows a message header is turned into an interface and an address, or skipped, as the message function says |
| InterfaceMonitor.InterfaceMonitorImpl.HandleDetected | src/interface_monitor_linux.cpp:222-245 | the events and the interface cache after one detected address |
| InterfaceMonitor.InterfaceMonitorImpl.ParseBuffer | src/interface_monitor_linux.cpp:112-175 | the message loop terminates inside the buffer with the status and events of the parse function |
| InterfaceMonitor.InterfaceMonitorImpl.OnRead | src/interface_monitor_linux.cpp:95-106 | a buffer that is too small is doubled, and after it or an error everything is asked for again |
| RouteSocket.FramesOfStream | src/interface_monitor_bsd.cpp:209-213 | any beginning of a message stream falls into its first messages and a proper prefix of the next one |
| RouteSocket.SplitIrrelevant | src/interface_monitor_bsd.cpp:196-199 | however the bytes are split into reads, the same messages come out and the same tail is carried |
| RouteSocket.WholeStream | src/interface_monitor_bsd.cpp:179-213 | a whole stream read in any pieces is handed over message by message, once and in order, with nothing left |
| RouteSocket.TailLeavesRoom | src/interface_monitor_bsd.cpp:180 | the carried tail is always a proper prefix of the next message, so the next read has room |
| RouteSocket.RouteMonitor.ParseTable | src/interface_monitor_bsd.cpp:205-278 | the cursor loop hands over the whole messages and stops at the tail |
| RouteSocket.RouteMonitor.OnRead | src/interface_monitor_bsd.cpp:196-199 | one completed read hands over exactly the next messages, compacts the tail to the front and leaves room |
| HttpGrammar.AcceptsExactlyTheGrammar | src/http_request_parser.cpp:34-260 | the parser says Good after exactly these bytes if and only if they are a request header: token method of at most 10, URI of 1 to 2048, version, header lines of at most 8192 in all, blank line |
| HttpGrammar.BadIff | src/http_request_parser.cpp:34-260 | the parser says Bad if and only if no request header begins with these bytes and none is their beginning: it neither gives up too early nor waits in vain |
| HttpGrammar.ValidIff | src/http_request_parser.h:48-79 | the request headers of the grammar with every permitted byte and bound listed |
| HttpGrammar.PrintedIsAccepted | src/http_request_parser.h:34-46 | printing a request and parsing it gives the request back and leaves every following byte unread |
| HttpGrammar.AcceptedIsPrinted | src/http_request_parser.cpp:34-260 | what was read before Good is a printed request and the delivered request says the same |
| HttpGrammar.SizeIsExact | src/http_request_parser.cpp:173-244 | the size counter is the length of all header text so far, and the state for folded headers is never reached |
| HttpGrammar.TextAsWritten | src/http_request_parser.cpp:34-260 | the fixed bytes of a request header spell `HTTP/1.`, a line end and a colon with a space |
| HttpParser.SplitIrrelevant | src/http_request_parser.h:34-46 | any split of the same bytes into calls gives the same result, request and consumed count |
| HttpParser.AddDigitExactIff | src/http_request_parser.cpp:9-21 | adding a digit obeys the bound if and only if the value is not zero or the digit is within the bound |
| HttpGrammar.MinorFiveExample | src/http_request_parser.cpp:9-21 | `GET / HTTP/1.05` is accepted and delivered as minor version 5 |
| HttpParser.HttpRequestParser.Consume | src/http_request_parser.cpp:34-260 | the whole new state of parser and request after one byte |
| HttpParser.HttpRequestParser.Parse | src/http_request_parser.h:34-46 | the loop computes the run over the input and how much of it was used |
| HttpParser.HttpRequestParser.Reset | src/http_request_parser.cpp:23-32 | the parser is as new |
| HttpHeaders.KeepAliveIff | src/http_request.cpp:17-28 | joining all Connection headers and splitting them again finds keep-alive if and only if it stands between separators in one of them |
| HttpHeaders.SplitOver | src/http_request.cpp:62-69 | splitting a joined text is splitting its parts |
| HttpHeaders.ContentLengthIff | src/http_request.cpp:30-47 | over the positions of the headers: a length is found if and only if one header alone has the name and its value is a decimal number that fits; two of the name are not unique, a lone one with anything else is malformed, none is absent |
| HttpHeaders.UniqueHeaderIff | src/http_request.cpp:6-15 | a header is absent, repeated or unique exactly as the positions with its name say |
| HttpHeaders.PrintedLength | src/http_request.cpp:30-47 | every number printed in digits into the only such header is found again if it fits, and refused if it does not |
| HttpHeaders.GetHeaderList | src/http_request.cpp:17-28 | the builder loop joins all values under a name |
| HttpConnection.HttpConnection.ParseHeader | src/http_server.cpp:327-402 | the whole new state and the answer after header bytes, with the decision that `HttpConnection.CheckHeaderIff` describes |
| HttpConnection.CheckHeaderIff | src/http_server.cpp:346-402 | over the headers themselves: not found if and only if method or path differ; accepted if and only if the one length is at most 262144 and the one content type, if any, is `application/soap+xml`, alone or with one charset; otherwise a bad request; kept if and only if a Connection header lists keep-alive |
| HttpConnection.ContentTypeIff | src/http_server.cpp:365-384 | the split content type fits if and only if the value is `application/soap+xml`, alone or followed by `; charset=` and something without another `; ` |
| HttpConnection.NamesAsWritten | src/http_server.cpp:346-402 | the byte constants spell the names and values of the source |
| HttpHeaders.SplitIff | src/http_request.cpp:62-69 | splitting finds exactly the items that stand between separators |
| HttpConnection.HttpConnection.ParseBody | src/http_server.cpp:404-452 | the chunk handed to the XML parser, its last flag, and the answer |
| HttpConnection.HttpConnection.ParseIncoming | src/http_server.cpp:312-325 | the loop over header and body parts of one read |
| HttpFraming.FirstRequest | src/http_server.cpp:259-452 | for the first request of a connection, however split into reads and whatever length it announces: waiting or answered exactly as the bytes so far determine, with a chunk log that is a prefix of the announced body and one last flag on the completing chunk |
| HttpFraming.BodyHandedExactly | src/http_server.cpp:404-414 | unless the XML parser refuses the last chunk it was given, the bytes handed over are exactly the announced ones after the blank line and nothing beyond, and the answer comes with the last of them |
| HttpFraming.AnsweredOnTimeIff | src/http_server.cpp:314-323 | in any pieces and whatever the XML parser says, a request is answered with its last announced byte if and only if it announces at least one |
| HttpFraming.EmptyBodyWaits | src/http_server.cpp:312-323 | a request that announces an empty body is answered exactly when a byte follows its blank line, and the XML parser then gets one empty last chunk |
| HttpFraming.PrintedRequest | src/http_server.cpp:312-452 | from the printed bytes of any request header to the answer, in any pieces: a wanted request is answered when its announced bytes are in, and these are handed over; any other is refused as the headers say and nothing is handed over |
| HttpFraming.PostAnsweredIff | src/http_server.cpp:312-452 | a printed POST request of any length up to the largest, with its body, with or without content type and Connection header, is answered unless the body is empty, and then with the next byte; another content type is refused; the connection is kept if and only if keep-alive is listed |
| HttpFraming.PostIsValid | src/http_request_parser.cpp:34-260 | such a request can be printed for every path and every length up to the largest |
| HttpFraming.OrdinaryRequest | src/http_server.cpp:346-402 | the ordinary request of a client is among them |
| HttpServer.RunKeeps | src/http_server.cpp:94-103 | over every run: no address has more than 20 connections, a connection is in the table if and only if it has an owner, accepted = live + finished + evicted + expired + stopped, and a non-empty table has a live wait |
| HttpServer.EvictionIsExact | src/http_server.cpp:186-194 | accepting evicts a connection exactly when its address has 20, never more than one, and every other connection stays as it was |
| HttpServer.GoneInTime | src/http_server.cpp:199-230 | with ideal timers every connection is gone by its start plus twice the limit, because a non-empty table always has one or two live waits, and exactly one when no expiry is queued |
| HttpServer.TimelyRun | src/http_server.cpp:199-237 | the invariant behind the time bound, through cancels, queued expiries and new connections in any order |
| HttpServer.OneWaitIff | src/http_server.cpp:172-237 | in every run, whatever the timers do, exactly one wait is live while there are connections, if and only if no connection enters an empty table while an expiry is queued |
| HttpServer.RaceLeavesTwo | src/http_server.cpp:232-237 | a queued expiry, a cancel and a new connection leave two live waits |
| HttpServer.HttpServerImpl.HandleConnection | src/http_server.cpp:172-197 | the connection dropped has the least start time of its address; the new one is inserted, and a collection scheduled if the table was empty |
| HttpServer.HttpServerImpl.FindOldest | src/http_server.cpp:177-185 | the loop counts the connections of an address and finds one with the least start time |
| HttpServer.HttpServerImpl.OnTimer | src/http_server.cpp:201-229 | exactly the connections older than the limit go, and a collection is scheduled again if any is left |
| HttpServer.StaysUnless | src/http_server.cpp:186-237 | a step takes a connection away if and only if it is that connection's end, a stop, its eviction, or an expiry when it is older than five seconds; otherwise it stays as it is |
| HttpServer.LeavesOnlyBy | src/http_server.cpp:186-237 | the same over every run |
| HttpServer.TimerIsSet | src/http_server.cpp:194-237 | when each step sets a wait, for five seconds from then, and when it cancels it |
| HttpServer.HttpServerImpl.OnConnectionFinished | src/http_server.cpp:232-237 | the connection goes, and the wait is cancelled if none is left |
| HttpServer.HttpServerImpl.StopServer | src/http_server.cpp:94-103 | every connection is stopped and the table is empty |
| WsdServer.GracefulStop | src/wsd_server.cpp:423-443 | after a graceful stop, over every run with no stop or fatal error from outside, failed sends and other Byes included: stopped if and only if a send has failed or all callbacks of some Bye have run, seven for this one; until then seven less those that ran are to come and one of them can run |
| WsdServer.FourByes | src/wsd_server.cpp:434-443 | with no other Bye under way and no failed send: exactly four Byes, and the seventh callback, the last one, stops the server |
| WsdServer.StoppedByBye | src/udp_server.cpp:308-337 | if no send fails, whatever stopped the server was a Bye sent four times whose continuation ran |
| WsdServer.ByeRun | src/udp_server.cpp:293-337 | each callback of a Bye lowers what is still to come by one while the server runs, and nothing else does |
| WsdServer.StoppedIsFinal | src/udp_server.cpp:55-61 | once stopped, no send begins, no message number is given out and no continuation runs |
| WsdServer.WholeLife | src/wsd_server.cpp:403-443 | message numbers strictly increase over the whole life of a server, each continuation runs at most once, no datagram is sent more than four times |
| WsdServer.FailureStops | src/udp_server.cpp:308-318 | any run of a started server in which a send fails ends stopped, whatever else happens in it |
| WsdServer.RunKeeps | src/udp_server.cpp:278-347 | for each datagram under way, sends begun and sends to come add up to its repeat count |
| WsdServer.UdpServer.Send | src/udp_server.cpp:278-347 | a new repeated datagram with 4 or 2 sends |
| WsdServer.UdpServer.OnSent | src/udp_server.cpp:293-337 | the callback of a send: repeat after a delay, continue, report or drop |
| WsdServer.UdpServer.OnDelay | src/udp_server.cpp:331-336 | after the delay the send is repeated while the socket is open |
| WsdServer.WsdServerImpl.StartServer | src/wsd_server.cpp:356-364 | handlers set, running, one Hello under way (`WsdServer.OneMessage`) |
| WsdServer.OneMessage | src/wsd_server.cpp:356-443 | starting sends one Hello, a graceful stop one Bye, an answer one Reply, each with the next number, one send begun, and nothing else; a plain stop and a fatal error stop |
| WsdServer.FirstMessage | src/wsd_server.cpp:403-421 | the first message of a server is a Hello numbered 0 |
| WsdServer.HelloInFull | src/udp_server.cpp:278-347 | while nobody stops the server and no send fails, it keeps running, and its Hello is done after seven callbacks, sent exactly four times; until then one can run |
| WsdServer.ReplyInFull | src/udp_server.cpp:278-347 | while the server keeps running, an answer is done after three callbacks, sent exactly twice |
| WsdServer.SentInFull | src/udp_server.cpp:278-347 | the same for whatever is under way, over every run through which the server keeps running |
| WsdServer.WsdServerImpl.StopServer | src/wsd_server.cpp:366-383 | a graceful stop sends a Bye and keeps running; a plain one closes and stops; a stopped server stays as it is |
| WsdServer.WsdServerImpl.SendCompleted | src/wsd_server.cpp:440-442 | what a completed send means for the whole server |
| WsdServer.WsdServerImpl.DelayCompleted | src/udp_server.cpp:331-336 | what a completed delay means for the whole server |
| WsdServer.WsdServerImpl.AnswerRequest | src/wsd_server.cpp:539-548 | an answered Probe or Resolve takes the next message number and a unicast datagram |
| MessageWindow.KnownMessages.CheckNewMessageId | src/wsd_server.cpp:591-601 | an id is rejected if and only if it is among the last 50 accepted; set and deque hold the same distinct ids, at most 50 |
| MessageWindow.AcceptancesSpread | src/wsd_server.cpp:591-601 | over any run two acceptances of one id have at least 50 other acceptances between them |
| MessageWindow.RepeatDoesNotRefresh | src/wsd_server.cpp:591-601 | however often an id comes again meanwhile, it is rejected while fewer than 50 others have been accepted after it, and accepted once exactly 50 have |
| MessageWindow.NextWindow | src/wsd_server.cpp:595-600 | dropping the back and pushing the front keeps exactly the last 50 |
| Placeholders.ExpandPrinted | src/wsd_server.cpp:226-277 | expanding a template is concatenating the meanings of its tokens; substituted values are never scanned again |
| Placeholders.EveryTextIsPrinted | src/wsd_server.cpp:234-275 | every text is such a template |
| Placeholders.LiteralPlaceholders | src/wsd_server.cpp:242-265 | the four placeholders by their spelling, and what stands for each, wherever they come in a text |
| Placeholders.OrderIrrelevant | src/wsd_server.cpp:242-265 | the order of the four name tests does not matter |
| Placeholders.DoubledIsLiteral | src/wsd_server.cpp:238-239 | doubling every `$` of any text and expanding gives the text back |
| Placeholders.DocumentedIff | src/wsd_server.cpp:236-274 | the code does what the documentation says if and only if no lone `$` has a character after it |
| Placeholders.LoneDollarExample | src/wsd_server.cpp:236-274 | `$5` is documented to become `5` and becomes nothing |
| Placeholders.ExpandWithoutDollar | src/wsd_server.cpp:283-285 | the shortcut for text without `$` changes nothing |
| Placeholders.ReplaceInString | src/wsd_server.cpp:226-277 | the scanner loop computes the expansion |
| TreeWalk.Walk | src/wsd_server.cpp:299-322 | the loop over parent, child and sibling pointers terminates, visits in document order and leaves the contents the recursive walk leaves |
| TreeWalk.WalkedIsVisited | src/wsd_server.cpp:299-322 | the recursive walk, which enters attribute values, visits in document order |
| TreeWalk.OrderDistinct | src/wsd_server.cpp:299-322 | no node is visited twice |
| TreeWalk.OrderComplete | src/wsd_server.cpp:290-297 | the visited nodes are exactly those that are not attributes |
| TreeWalk.WalkedExpandsOnce | src/wsd_server.cpp:279-297 | each text is expanded exactly once and nothing else changes |
| TreeWalk.ReplaceInSelf | src/wsd_server.cpp:279-297 | one node: its text, or the values of its attributes |
| TreeWalk.ReplacePlaceholders | src/wsd_server.cpp:220-224 | a whole template: every text below the root expanded once |
| LineReader.Reader.Run | src/sys_util.h:180-218 | for every buffer size above zero and every split into reads, the sink gets the lines of the definition, and the asserted addition is positive |
| LineReader.Reader.EmitLines | src/sys_util.h:194-206 | the scan of one buffer |
| LineReader.LinesOfJoined | src/sys_util.h:194-217 | exactly the newline-terminated lines shorter than the buffer, in order, then a non-empty unterminated one that is shorter |
| LineReader.StreamIsJoined | src/sys_util.h:194-217 | every stream has that form |
| ColorStripper.RemoveColors | src/command_line.cpp:258-312 | the in-place automaton computes the recursive definition; each character written was read at its own position or later, in order, so writing never gets ahead of reading |
| ColorStripper.StripKeepsText | src/command_line.cpp:258-312 | complete control sequences, sequences broken off and lone ESC vanish; the byte that breaks one off, the byte after a lone ESC and all other text stay |
| ColorStripper.EveryTextIsParts | src/command_line.cpp:258-312 | every text is made of such parts |
| ColorStripper.InsertedSequencesVanish | src/command_line.cpp:258-312 | complete control sequences inserted anywhere in ESC-free text vanish and leave the text |
| ColorStripper.StripLeavesNoEsc | src/command_line.cpp:268-281 | no ESC is left |
| ColorStripper.StripIdempotent | src/command_line.cpp:258-312 | doing it twice is doing it once |
| ColorStripper.StripIdentityIff | src/command_line.cpp:258-312 | a text is unchanged if and only if it holds no ESC |

## Left out

- Sockets, multicast options, logging, daemonizing, user creation, chroot and service notification: operating-system calls without logic of their own.
- The XML library and the XPath queries of `handleRequest`: the push parser is a log of chunks that may fail, the document a tree of linked nodes. Escaping in `setContent`, the C string it is given, namespace reconciliation and children of entity references are not modelled.
- XML response building, stock HTTP replies and configuration defaults: straight-line data.
- Further requests on a kept connection: headers of earlier requests stay in the request object and bytes behind a finished body are dropped, so the framing results are about the first request.
- Exceptions thrown by system calls, except where opening a pid file is abandoned; an unknown character set making the XML parser fail to start.
- HttpHeaders.ContentLengthIff: header names are compared byte by byte, as the multimap does; what the string class does with text that is not UTF-8 is not part of this model.
- WsdServer.WholeLife: message numbers are unbounded, so the wrap-around of `size_t` after 2^64 messages is not modelled.
- PidFileOpen.Kernel.Open: the others take finitely many steps while it runs, as it need not return otherwise; exceptions are steps of `PidFile` only.
- PidFile.MutualExclusion: nobody outside the protocol touches the paths, and a child drops its inherited copy before it forks itself, as `src/app_state.cpp:136` does.
- Netlink.ParseIsExpected: messages of 65536 bytes or more, whose length does not fit the attribute field, are not claimed to be skipped.
- InterfaceMonitor.InterfaceMonitorImpl.OnRead: interface names and flags are functions of index and name for the duration of one buffer.
- RouteSocket.RouteMonitor.OnRead: the tail is moved as by `memmove`, and what is done with each routing message (`parseAddresses`) depends on platform layouts that are not part of this model.
- TreeWalk.Walk: the tree is described by ghost arguments that the caller provides; contents are strings without encoding.
- HttpServer.GoneInTime: timer handlers run at their deadline, before time passes; without that no bound holds.
- `ServerManager`, the parent and child supervision in `main.cpp`, configuration and command-line parsing, and the regular expressions: not modelled.
