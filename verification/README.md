# Verified model of xdm's stateful cores

xdm is the X Display Manager. Under its sockets, signals and windows it runs a handful of small
state machines and list algorithms. This project models those and proves what they promise:

* **Displays** (`Displays`, `Lifecycle`, `Logouts`, `Rescans`, `Shutdown`, `RestartBound`, `Manager`). A display has a
  status, a session process, a server process and two retry counters. Reaped children, rescans of
  the servers file, dynamic additions, MANAGE packets and shutdown are atomic steps over the list of
  displays. The system is the set of unreaped children, from which fork picks a fresh process id or
  fails. `Displays` holds the steps as functions; `Lifecycle`, `Logouts`, `Rescans`, `Shutdown`
  and `RestartBound` prove properties of every run; `Manager` is the mutable list, each method proved against `Displays`.
* **XDMCP** (`Xdmcp`, `XdmcpSessions`, `XdmcpHistory`, `XdmcpAnswers`, `XdmcpFailures`, `XdmcpServer`, `XdmAuth`,
  `Choices`). Steps take any packet in any order, so losses, duplicates and reorderings are just runs.
  `Xdmcp` holds the handlers as functions on the daemon's state and a log of what it did;
  `XdmcpSessions`, `XdmcpHistory` and `XdmcpAnswers` prove properties of every run, the last one also
  what each packet is answered with; `XdmcpFailures` says exactly which
  packets and files the daemon does not survive; `XdmcpServer` is the mutable server. The protocol is
  the X Display Manager Control Protocol, version 1.1, sections 5, 7 and 11.
* **The access file** (`AccessWords`, `Globbing`, `AccessRules`, `AccessQueries`): the tokenizer, the
  backtracking pattern matcher, macro expansion through a possibly cyclic graph, and the first-match
  questions.
* **Reconciliation** (`Listeners`, `XAuthority`): listening sockets and multicast groups brought in
  line with the configuration, and the merge into a user's .Xauthority file.
* **Buffers and bits** (`LineEditor`, `Entropy`): the greeter's in-place line editor, and the mixing
  of the entropy pool.

Displays and proto-displays are linked nodes, as in the code: removal walks the list with the node
before in hand, the loops over the list read `next` before a node is visited, and what a freed node
holds is never relied on. Where the code reads through a null pointer, past an array or past the end of
a pattern, the model stops: the manager is no longer alive, and no later step does anything.

Each imperative operation is a method on a class or array with its state as fields, and its
contract ties the new state to a specification function of the old one. The promises are lemmas
about those functions. `dafny verify dfyconfig.toml` checks everything.

## Where the code falls short of the obvious claim

* The pattern matcher agrees with its documentation for exactly the patterns that do not *end* in two
  adjacent unescaped stars; two stars elsewhere do no harm (`Globbing.MatcherIsCompleteExactly`). It
  reads past its pattern, for some subject, exactly for patterns with a trailing lone backslash that
  is not cut off by a final star (`Globbing.OverrunExactly`).
* A word of 254 characters or more is lost; 253 are read (`AccessWords.WordLengthLimit`).
  Backslash-newline joins lines only where no word is in progress (`AccessWords.ContinuationExactly`).
* More than 32 nested macros can hide a host (`AccessRules.LimitIsTight`).
* A typed NUL puts the editor's cursor behind the end of its text, exactly when one is among the
  characters that fit (`LineEditor.Field.InsertChar`). Setting a prompt puts the cursor back but not the
  scroll start (`LineEditor.Field.ResetPromptCursor`).
* A REQUEST that asks for XDM-AUTHORIZATION-1 without authenticating ends the manager, unless an
  earlier REQUEST of the same session authenticated: rho is copied from a null pointer
  (`XdmcpFailures.ManagerEndsExactly`, `NullCopyHappens`). The same packet is served after one that
  authenticated (`ServedOnceAuthenticated`), so its outcome depends on history.
* A first REQUEST that lists more connection types than addresses makes the manager read past the
  addresses, when it gets as far as a usable type without one (`XdmcpFailures.ManagerEndsExactly`,
  `OverrunHappens`).
* Access patterns and macro names that the matcher reads past end the manager when a query, a first
  REQUEST or the MANAGE of an indirect client is matched against one (`XdmcpFailures.ManagerEndsExactly`,
  `PatternOverrunHappens`; where a walk meets them, `AccessRules.WalkOverrunsExactly`).
* A line of the servers file ends the manager when it names a display from XDMCP, whose argument list is
  a null pointer and is freed, or gives a class to a display without one, which is compared
  (`Rescans.SurvivesExactly`, `RereadSurvivesExactly`). One line is enough once MANAGE made a display
  ":0", as local ones are called (`Lifecycle.NamedByBoth`); two lines are for the class
  (`Rescans.TwoLinesSuffice`).
* Proto-displays expire by an unsigned comparison, so that all of them do while the clock is below
  thirty minutes (`XdmcpFailures.ExpiryExactly`).
* A display from XDMCP whose session could not be forked (`Lifecycle.TakeOverIdlesExactly`) stays idle
  for as long as the manager lives, until a MANAGE takes its name or everything is stopped
  (`Lifecycle.IdleForever`): no pass over the list starts it (`Rescans.PassStartsExactly`), and a rescan
  that names it is not survived (`Lifecycle.RescanLingers`).
* After shutdown began, a rescan leaves no display started exactly when every line names a display
  that is still listed (`Shutdown.RescanRevivesExactly`, `ReapRevivesExactly`); with one new line it
  does start one (`NewLineRevives`).
* CHOOSER on a line without hosts does nothing for the chooser and makes the line a direct entry
  (`AccessQueries.ChooserNeedsHosts`).
* After a display word that cannot be resolved the next word of the same line is taken for a display:
  a written file is read back as written exactly when all its names resolve
  (`AccessWords.ReadBackExactly`).
* Retyping: a line of the servers file takes over whatever display has its name, live or not, and only
  changes its type, mark, class and arguments, unless that display is from XDMCP
  (`Manager.Manager.ParseDisplay`). All three types a line can name are acceptable, so the complaint
  about an unacceptable type is never made.

## Model

| member | source | states |
|---|---|---|
| Lifecycle.StepKeeps | xdm/dm.c:466-764 | every step keeps: a zombie has a live server, a phoenix a live server and no session, not running no session, running a session; recorded processes are distinct unreaped children; a null argument list iff from XDMCP; a zombie leaves the list only when its server is reaped |
| Lifecycle.RunKeeps | xdm/dm.c:265-301 | the same over every run of steps |
| Lifecycle.ReapedBelongsOnce | xdm/dm.c:562-696 | in every run a reaped process id is the session of at most one display or the server of at most one, never both |
| Lifecycle.OneLiveDisplayPerName | xdm/dpylist.c:71-80 | in every run at most one display of a name is not a zombie, and a search by name finds it |
| Lifecycle.TakeOverKeeps | xdm/xdmcp.c:1504-1535 | a MANAGE takeover keeps the invariant and every zombie |
| Lifecycle.TakeOverIdlesExactly | xdm/dm.c:886-901 | the display a MANAGE creates stands in front with its name and link, and is idle iff its session could not be forked |
| Lifecycle.TakeOverExactly | xdm/xdmcp.c:1504-1582 | after a MANAGE takeover the display in front is transient, foreign and new, with the class, link and session given; what had its name is a zombie or gone, and displays of other names are as they were |
| Lifecycle.ReapKeeps | xdm/dm.c:553-721 | reaping any child, known or not, with or without a rescan first, keeps the invariant and every other zombie |
| Lifecycle.ScanKeeps | xdm/file.c:195-219 | reading any lines of the servers file keeps the invariant: no second live display of a name |
| Lifecycle.IdleForever | xdm/dm.c:893-894 | an XDMCP display whose session fork failed stays as it is over any run the manager lives through in which no MANAGE takes its name and nothing stops everything |
| Lifecycle.RescanLingers | xdm/file.c:50-211 | a rescan leaves a display from XDMCP as it is, but for its mark, or ends the manager, as one that names it does |
| Lifecycle.NamedByBoth | xdm/file.c:195-211 | after a MANAGE made a display ":0" a servers file with the one line for :0 is not survived |
| Rescans.RescanDropsUnlisted | xdm/dm.c:383-399 | after a rescan every display of the servers file that is not a zombie is listed in it |
| Rescans.RescanSparesListed | xdm/dm.c:729-746 | a display in use whose name is still listed keeps status, processes and counters through a rescan the manager survives |
| Rescans.CheckingBringsAllUp | xdm/dm.c:729-752 | when every fork succeeds, checking leaves no permanent display idle and removes none that is not marked missing |
| Rescans.PassStartsExactly | xdm/dm.c:729-752 | when every fork succeeds, one pass over the list leaves a display of an idle one's name running iff that is permanent, from the servers file and not marked missing |
| Rescans.SurvivesExactly | xdm/file.c:195-211 | reading the servers file is survived iff no line names a display from XDMCP, and none gives a class to a display that had none, or was made by an earlier line without one |
| Rescans.RereadSurvivesExactly | xdm/file.c:195-211 | the same for a rescan from any state that satisfies the invariant, on the displays as they were before it |
| Rescans.TwoLinesSuffice | xdm/file.c:195-205 | the null comparison happens with two lines, from an empty list |
| Rescans.LineIsRead | xdm/file.c:137-224 | a line with a type, read and survived, gives the first display of its name that type, its arguments and its class if it has one, and changes nothing else; or it makes a new one in front |
| Rescans.UntypedLine | xdm/file.c:163-183 | a line without a type word is for a permanent local display |
| Logouts.SessionEndsExactly | xdm/dm.c:561-693 | for every wait value: a display that is no zombie goes on after its session iff it is permanent (0), or from the servers file (1), below the limits (3, 4, SIGTERM); it keeps its server unless that must go, and its counters are set back or up; otherwise it is a zombie until its server is gone, or off the list |
| Logouts.ServerEndsExactly | xdm/dm.c:696-713 | a zombie goes with its server, a phoenix is ready for a new one, any other display just lacks it |
| Logouts.NextSessionExactly | xdm/dm.c:561-752 | with successful forks the check in the same turn starts the next session iff the display goes on, keeps its server, and is permanent and still in the servers file |
| Logouts.PhoenixRises | xdm/dm.c:696-752 | a permanent display of the servers file gets a new server and session once the old server is reaped |
| Logouts.AddStartsFirst | xdm/dm.c:754-770 | exactly the first idle transient display of the servers file is started |
| Shutdown.StopVisitsEachOnce | xdm/dpylist.c:47-56 | what the loop over the list comes to: in order, the result of stopping each original display once |
| Shutdown.CheckVisitsEachOnce | xdm/dpylist.c:47-56 | the same for the loop that checks and starts, each display with the outcome meant for it |
| Shutdown.StopAllLeavesZombies | xdm/dm.c:466-498 | after StopAll every display left is a zombie |
| Shutdown.ShutdownStep | xdm/dm.c:694-702 | among zombies a step, rescans of listed names included, forks nothing and removes exactly the display whose server it reaped |
| Shutdown.ShutdownRun | xdm/dm.c:694-752 | over any run whose rescans name listed displays only, the displays left are, in order, those whose server was not reaped |
| Shutdown.ShutdownEnds | xdm/dm.c:466-498 | after StopAll, with such rescans or none, nothing is started, the list never grows, and it is empty exactly when all its servers were reaped |
| Shutdown.RescanRevivesExactly | xdm/dm.c:383-399 | after StopAll a rescan leaves only zombies, however forks turn out, iff every line names a listed display |
| Shutdown.ReapRevivesExactly | xdm/dm.c:431-444 | the same for the rescan of a modified servers file while a child is reaped |
| Shutdown.NewLineRevives | xdm/dm.c:431-444 | with a zombie still listed, one line with a new name makes a display in either rescan, and starts it in one |
| RestartBound.FailingStep | xdm/dm.c:553-721 | in a failing run a step that restarts the display lowers the measure, crashes left first and then failed starts; no other step, of this display or another, raises it |
| RestartBound.RemainingBounds | xdm/dm.c:582-672 | the measure bounds the restarts still to come, from any counters |
| RestartBound.RestartsAreBounded | xdm/dm.c:582-672 | in a failing run a fresh display of the servers file is restarted at most (r+1)s-1 times before it is stopped, r and s the configured attempts but at least 1, whatever other displays do |
| RestartBound.BoundIsTight | xdm/dm.c:582-672 | for any configured attempts a failing run reaches the bound |
| Manager.Manager.RemoveDisplay | xdm/dpylist.c:134-195 | the walk with the node before in hand unlinks that node and no other; the freed node is not relied on |
| Manager.Manager.NewDisplay | xdm/dpylist.c:197-289 | a new node with every field at its default, linked in front |
| Manager.Manager.FindDisplayByName | xdm/dpylist.c:71-80 | the first display of the name |
| Manager.Manager.FindDisplayByPid | xdm/dpylist.c:82-91 | the first display with that session |
| Manager.Manager.FindDisplayByServerPid | xdm/dpylist.c:93-102 | the first display with that server |
| Manager.Manager.StopDisplay | xdm/dm.c:916-927 | a zombie if it has a server, off the list if not; every other display unchanged |
| Manager.Manager.RestartDisplay | xdm/dm.c:933-945 | phoenix if it has a server and must or may lose it, else not running; nothing else changes |
| Manager.Manager.StartDisplay | xdm/dm.c:826-901 | resources loaded, a server for a local display that lacks one, a session; off the list if the server fails, unstarted if only the session does |
| Manager.Manager.FailedStart | xdm/dm.c:582-610 | one more failed start, given up at the limit or at once for XDMCP displays and zombies |
| Manager.Manager.Reservered | xdm/dm.c:611-652 | crashes counted within 120 seconds of each other only, given up at the limit; the time noted has no effect on a removed display |
| Manager.Manager.SessionExited | xdm/dm.c:562-693 | the whole switch on the wait status |
| Manager.Manager.ServerExited | xdm/dm.c:696-713 | the switch on the status of the display whose server ended |
| Manager.Manager.ChildExited | xdm/dm.c:561-719 | sessions are looked up first, then servers; unknown children change nothing |
| Manager.Manager.Reap | xdm/dm.c:553-721 | a modified servers file is read first; if the manager lives through it, the child's session or server is dealt with |
| Manager.Manager.WaitForChild | xdm/dm.c:519-721 | after reaping everything and starting what should run the list is that of the run, and the invariant survives, as far as the manager does |
| Manager.Manager.CheckDisplayStatus | xdm/dm.c:729-746 | only displays of the servers file; missing ones are stopped, permanent idle ones started |
| Manager.Manager.StartDisplays | xdm/dm.c:748-752 | with the next node read first, each of the original nodes is visited once, in order, although some are unlinked and freed; the list is as specified |
| Manager.Manager.AddDisplay | xdm/dm.c:754-770 | starts the first dynamic display that is not running, and no other |
| Manager.Manager.MarkDisplays | xdm/dm.c:377-381 | every display marked missing, nothing else changed |
| Manager.Manager.ParseDisplay | xdm/file.c:138-223 | finds or creates by name; an existing display keeps status, processes and counters and gets type, mark, class and arguments; a class for one that has none, or a display without arguments, ends the manager |
| Manager.Manager.TypeOf | xdm/file.c:163-183 | the second word's type, or the third's after a class, or the default; the class, if there is one, and the arguments after the type |
| Manager.Manager.ParseDisplayType | xdm/file.c:237-250 | the table's entry, or the default and a flag |
| Manager.Manager.ScanServers | xdm/dm.c:333-375 | the lines in order, up to one that ends the manager |
| Manager.Manager.Reread | xdm/dm.c:436-442 | every display marked missing, then the servers file read |
| Manager.Manager.RescanServers | xdm/dm.c:383-399 | mark, read, then check every display |
| Manager.Manager.StopAll | xdm/dm.c:466-498 | each of the original nodes is visited once and stopped, although those without a server are unlinked and freed on the way |
| Manager.Manager.TakeOver | xdm/xdmcp.c:1504-1582 | the first display of the name stopped, a foreign one in front and started |
| XdmcpSessions.SessionIdsAreSound | xdm/xdmcp.c:1186-1197 | until 3,770,695,295 ids were issued: ids of proto-displays and displays nonzero and distinct, each started once, after it was issued and accepted for the same address and number |
| XdmcpSessions.IdsAreIssuedInOrder | xdm/xdmcp.c:1186-1197 | in every run until the counter wraps, ids lie between the first one and the last |
| XdmcpSessions.RestartsIssueOtherIds | xdm/xdmcp.c:1186-1197 | two managers started at different seconds within 32768 issue no common id, as long as each issues at most 16000 |
| XdmcpSessions.StepKeepsSessions | xdm/xdmcp.c:1204-1590 | every packet and every life-cycle step keeps that |
| XdmcpSessions.CreationsAreChecked | xdm/xdmcp.c:1283-1324 | in every run each id was created for a REQUEST of that address and number whose sender had an address, was let in by an access entry when it came, unless there was no access file, and could be connected to |
| XdmcpSessions.AdmissibleExactly | xdm/xdmcp.c:1286-1310 | but for overruns, a first REQUEST is admitted iff its sender has an address, an entry lets it in or there is no access file, and it offers a usable connection or is on this host |
| XdmcpSessions.StartsAreChecked | xdm/xdmcp.c:1283-1583 | in every run from the start, a started session has an id that was created by a REQUEST of the same address and number, whose sender an access entry let in, and accepted in between |
| XdmcpSessions.RequestKeeps | xdm/xdmcp.c:1283-1367 | a REQUEST keeps the ids in order, whether it creates, repeats or is turned down |
| XdmcpSessions.StartKeeps | xdm/xdmcp.c:1489-1583 | a MANAGE uses its id up and moves it to exactly one display |
| XdmcpSessions.StepIds | xdm/dm.c:466-764 | no life-cycle step brings a session id onto the list or duplicates one |
| XdmcpSessions.KeepAliveExactly | xdm/xdmcp.c:1647-1689 | after any run the manager lived through, for a nonzero id KEEPALIVE answers running iff a display with that id is on the list and running |
| XdmcpHistory.RetransmissionIsHarmless | xdm/xdmcp.c:1283-1359 | mixed with any other packets, repeated REQUESTs leave exactly one proto-display for the address and number, and every ACCEPT for them names its id |
| XdmcpHistory.GrantedExactly | xdm/xdmcp.c:1325-1359 | a REQUEST is turned down iff its names, keys or data are wrong, whatever came before; it copies rho through a null pointer iff it needs rho, does not bring it, and there is none; else it is served |
| XdmcpHistory.ManageTwice | xdm/xdmcp.c:1467-1583 | after any run the manager lived through, the second of two equal MANAGEs changes nothing and sends nothing iff the first finds its proto-display and a name, or is a duplicate itself: no proto-display for it, but a display with its session id |
| XdmcpHistory.ChooserFlagExactly | xdm/xdmcp.c:1551-1562 | the chooser flag is set iff the client's latest locally answered query since its previous session was indirect, its first entry with hosts is an allowed CHOOSER entry, and no unexpired choice exists |
| XdmcpHistory.StepKeepsMemory | xdm/xdmcp.c:467-470 | after any packets the manager survives the indirect clients and the choice list are what the history of packets says |
| XdmcpHistory.AuthorizationMatchesOffer | xdm/xdmcp.c:1566-1580 | the authorization a MANAGE moves to the display agrees with the latest ACCEPT for its id that carried one, after any packets |
| XdmcpHistory.SessionGetsSharedKey | xdm/xdmcp.c:1327-1580 | from an authenticated REQUEST to its MANAGE, any packets between: the display reads rho+1 and sigma in its ACCEPT, which is a zero byte and seven of the random bytes drawn, and its session's authorization is rho followed by that sigma |
| XdmcpHistory.SessionGetsCookie | xdm/xdmcp.c:1327-1580 | from a REQUEST granted with MIT-MAGIC-COOKIE-1 to its MANAGE, any packets between: ACCEPT and session have the sixteen random bytes drawn |
| XdmcpHistory.OtherRandomOtherKey | xdm/xdmauth.c:85-127 | two such REQUESTs whose random bytes differ leave different authorizations, whatever the displays sent |
| XdmcpHistory.PacketsKeepDisplays | xdm/xdmcp.c:545-596 | every packet keeps the displays' invariant |
| XdmcpAnswers.QueryAnsweredExactly | xdm/xdmcp.c:424-479 | a query that is survived is answered willing iff there is no access file or an entry lets the client in, else unwilling if it was direct and not at all if not |
| XdmcpAnswers.ForwardsExactly | xdm/xdmcp.c:346-543 | without a chooser an indirect query that is survived is forwarded to exactly the hosts the first entry reaches through the macros that can be sent to, answered here iff it reaches this host, and nothing else is done; a forward names the port and the client, or this host for a client on it |
| XdmcpAnswers.ChoiceIsFollowedExactly | xdm/access.c:872-881 | after any run the manager lived through, behind a CHOOSER entry an indirect query is forwarded to the host its client chose last, if that is current, elsewhere and can be sent to, and answered here iff no choice is current or it is this host |
| XdmcpAnswers.NoEntryNoAnswer | xdm/access.c:845-890 | a client no entry with hosts is for, or a negated one first, gets nothing from an indirect query |
| XdmcpAnswers.AnswersAreChecked | xdm/xdmcp.c:424-543 | in every run whatever is sent in answer to a query answers one of the run: who is told willing had asked, indirectly, or let in by an entry, or without an access file |
| XdmcpAnswers.RequestAnsweredExactly | xdm/xdmcp.c:1283-1367 | a REQUEST that is survived is answered once: accepted iff there is a proto-display for it or its sender may be managed, and its names, keys and data are right; else declined |
| XdmcpAnswers.ProtoExactly | xdm/xdmcp.c:1304-1320 | a first REQUEST that is served leaves a proto-display for its sender and number in front, as of now, with the connection chosen and the next id; older ones stay unless too old |
| XdmcpAnswers.TimeoutExactly | xdm/protodpy.c:81-92 | of the proto-displays those too old are dropped, and no others |
| XdmcpAnswers.ConnectionExactly | xdm/policy.c:192-268 | the connection chosen is the sender itself if offered, else the first usable offer, else a sender on this host |
| XdmcpAnswers.AuthorizationExactly | xdm/policy.c:94-123 | the authorization chosen is the partner of the authentication if asked for, else the first known name, else none |
| XdmcpAnswers.ManageAnsweredExactly | xdm/xdmcp.c:1467-1583 | in every state of sound ids a MANAGE that is survived makes a display of the proto-display with its id, with that id, address and authorization and the class of the packet, or fails without a name; it is ignored iff there is no proto-display and the display managed has the id, and refused otherwise |
| XdmcpAnswers.KeepAliveAnsweredExactly | xdm/xdmcp.c:1647-1689 | a KEEPALIVE for a nonzero id gets the id of the display that has it, or else of the first managed for its sender and number, if that runs, and none if not; told running only in the first case |
| XdmcpFailures.ManagerEndsExactly | xdm/xdmauth.c:140-185 | after any run, for any access file, the steps the manager does not survive are exactly: a REQUEST for XDM-AUTHORIZATION-1 from a display none of whose REQUESTs authenticated, this one included; a first REQUEST whose types outrun its addresses where they are looked at; a query, a first REQUEST or an indirect client's MANAGE matched past the end of a pattern or macro name; a servers file that names a display from XDMCP or gives a class to a display without one |
| XdmcpFailures.RunRho | xdm/xdmauth.c:260-281 | over any run a proto-display has a rho iff a REQUEST for its session id authenticated |
| XdmcpFailures.NullCopyHappens | xdm/xdmauth.c:171-178 | one such packet, as the first of a run |
| XdmcpFailures.ServedOnceAuthenticated | xdm/xdmcp.c:1337-1359 | the same packet is accepted with an authorization when the display authenticated before |
| XdmcpFailures.OverrunHappens | xdm/policy.c:231-250 | a packet with a connection type and no address |
| XdmcpFailures.PatternOverrunHappens | xdm/access.c:793-797 | with one bad pattern in the access file a query from one client ends the manager, and from another does not |
| XdmcpFailures.ExpiryExactly | xdm/protodpy.c:81-92 | a proto-display expires iff it is older than thirty minutes or the clock is below them |
| XdmcpServer.Server.constructor | xdm/xdmcp.c:1190-1197 | nothing listed, and a first id of at most 32767*16000 |
| XdmcpServer.Server.ProcessRequestSocket | xdm/xdmcp.c:545-596 | whatever packet comes, the server's state and what it sends are those of a step of the protocol |
| XdmcpServer.Server.AllQueryRespond | xdm/xdmcp.c:424-479 | the client remembered or forgotten, and answered willing, unwilling or not at all |
| XdmcpServer.Server.IndirectRespond | xdm/xdmcp.c:481-543 | forwarded to the walk's hosts as far as they can be sent to, answered here if the local host is among them; the end of the manager if the walk reads past a pattern |
| XdmcpServer.Server.SendForward | xdm/xdmcp.c:290-395 | nothing for an address of another length than 4, 8, 16 or 20; a client on this host is named by the address the other host sees |
| XdmcpServer.Server.RequestRespond | xdm/xdmcp.c:1204-1377 | the whole handler: found or created, then granted, declined and disposed of, or the end of the manager |
| XdmcpServer.Server.Admit | xdm/xdmcp.c:1286-1310 | a connection iff the sender's family is known, it is acceptable and can be reached; or an overrun of the patterns or the addresses |
| XdmcpServer.Server.GrantRequest | xdm/xdmcp.c:1325-1368 | credentials renewed in place and offered, or the proto-display disposed of, or a null copy |
| XdmcpServer.Server.CheckAuthentication | xdm/policy.c:80-92 | only XDM-AUTHENTICATION-1 is checked |
| XdmcpServer.Server.Manage | xdm/xdmcp.c:1434-1590 | refused, ignored, failed, started, or the end of the manager |
| XdmcpServer.Server.StartSession | xdm/xdmcp.c:1489-1583 | the proto-display gives its id, address and authorization to a new display, with the packet's class |
| XdmcpServer.Server.TakeChooserFlag | xdm/xdmcp.c:1551-1560 | asked only for indirect clients, which are forgotten; an overrun iff the search reads past a pattern |
| XdmcpServer.Server.SendAlive | xdm/xdmcp.c:1647-1689 | the display with the id, or else the one at the address, running or not |
| XdmcpServer.SelectConnectionTypeIndex | xdm/policy.c:192-268 | the sender's own address wherever it is in the list, else the first usable one, else a local sender; an overrun iff a usable type without an address is compared or settled on |
| XdmcpServer.SelectAuthorizationTypeIndex | xdm/policy.c:94-117 | the authentication's partner if offered, else the first known protocol |
| XdmcpServer.ProtoDisplays.FindProtoDisplay | xdm/protodpy.c:61-79 | the first proto-display of the address and number |
| XdmcpServer.ProtoDisplays.TimeoutProtoDisplays | xdm/protodpy.c:81-92 | exactly those that expired go, by the unsigned comparison; the next node is read before one is freed |
| XdmcpServer.ProtoDisplays.NewProtoDisplay | xdm/protodpy.c:94-135 | after the sweep, a new one in front |
| XdmcpServer.ProtoDisplays.DisposeProtoDisplay | xdm/protodpy.c:137-163 | the walk with the node before in hand unlinks that one and no other |
| XdmAuth.DisplayAndFileAgree | xdm/xdmauth.c:140-185 | the display unwraps rho+1 and a zero byte with seven random ones, the file holds rho and these |
| XdmAuth.CookieIsRandom | xdm/auth.c:225-229 | a cookie is sixteen random bytes, offered and kept as they are |
| XdmAuth.KeyIsRead | xdm/xdmauth.c:191-251 | a key written out or in hexadecimal digits of either case gives its first seven bytes up to a NUL, filled up with zeros, behind a zero byte |
| XdmAuth.FirstLineCounts | xdm/xdmauth.c:232-253 | the first line for a display decides, readable or not |
| XdmAuth.NoLineNoKey | xdm/xdmauth.c:232-257 | without a line for it a display has no key |
| XdmAuth.IncrementAddsOne | xdm/xdmauth.c:277-277 | what the called libXdmcp function is taken to do, its code not being in this repository: carrying through the bytes is adding one to a big-endian number, wrapping around |
| XdmAuth.IncrementKey | xdm/xdmauth.c:277-277 | that function as a loop in place; the cited line is the only call of it |
| XdmAuth.ProtoDisplay.XdmGetKey | xdm/xdmauth.c:221-258 | the first line for the display decides, even if its key cannot be read |
| XdmAuth.ProtoDisplay.XdmCheckAuthentication | xdm/xdmauth.c:260-281 | eight bytes unwrapped, kept, incremented and wrapped where they lie |
| XdmAuth.ProtoDisplay.XdmGetXdmcpAuth | xdm/xdmauth.c:140-185 | the file's copy is rho and the key, which is random behind a zero byte, the packet's copy the key wrapped; a null copy iff there is no rho when both are to be made |
| XdmAuth.ProtoDisplay.SetProtoDisplayAuthorization | xdm/auth.c:205-241 | both authorizations forgotten first, then made for known protocols; a null copy iff XDM-AUTHORIZATION-1 is made without rho |
| Choices.LookupIsTimestampedMap | xdm/choose.c:262-298 | with a clock that never goes back a lookup answers c iff the latest registration for that client and type chose c no more than the timeout ago; keys stay unique |
| Choices.UnlinkingIsInvisible | xdm/choose.c:273-286 | unlinking expired records during a walk never changes a later answer |
| Choices.ListStaysFaithful | xdm/choose.c:262-347 | the list holds latest registrations only, and lacks one only once it expired |
| Choices.DropRemovesExactly | xdm/choose.c:154-177 | forgetting takes out that client and no other |
| Choices.ChoiceList.IndirectChoice | xdm/choose.c:262-298 | answer and remaining list of the unlinking walk |
| Choices.ChoiceList.RegisterIndirectChoice | xdm/choose.c:300-347 | updates the client's record or puts a new one in front |
| Choices.IndirectUsers.RememberIndirectClient | xdm/choose.c:126-152 | on the list once |
| Choices.IndirectUsers.ForgetIndirectClient | xdm/choose.c:154-177 | its first record unlinked |
| Choices.IndirectUsers.IsIndirectClient | xdm/choose.c:179-191 | true iff on the list |
| Network.MappedSender | xdm/netaddr.c:87-160 | an IPv4 sender on an IPv6 socket is to access rules the IPv4 client, but another sender to the protocol |
| AccessRules.WalkIsBoundedReachability | xdm/access.c:724-834 | the calls made, and the report of the local host, are exactly those reachable through at most 32 macros, cycles included; the expansion always ends |
| AccessRules.WalkOverrunsExactly | xdm/access.c:808-834 | the walk reads past a macro entry's name iff fewer than 32 macros lead to a list with a macro word that is matched past the end of some entry's name |
| AccessRules.LimitHidesNothing | xdm/access.c:632-834 | with at most 32 macro entries they are exactly the reachable ones, for any graph |
| AccessRules.LimitIsTight | xdm/access.c:819-820 | a chain of n macros with a remote host at its end reaches it iff n is at most 32 |
| AccessRules.SimplePath | xdm/access.c:808-834 | what is reachable is reachable without repeating a macro |
| AccessRules.ScanHostlist | xdm/access.c:724-769 | the loop makes the calls of the walk, in order, or reads past a name |
| AccessRules.IndirectAlias | xdm/access.c:808-834 | the loop over macro entries expands every match, one level deeper, or reads past a name |
| AccessQueries.FindFirstEntry | xdm/access.c:849-868 | the first entry for the client among those with hosts, or among those without; or an overrun |
| AccessQueries.ConcernsExactly | xdm/access.c:845-866 | an address entry is for the client of that type and address; a pattern entry for those whose names it describes, unless the matcher falls short of the pattern; others are for nobody |
| AccessQueries.FirstEntry | xdm/access.c:849-868 | an entry iff one matches, and then the first |
| AccessQueries.SearchOverruns | xdm/access.c:845-868 | the search reads past a pattern iff the client's name is matched past the end of one before the entry that decides |
| AccessQueries.AcceptOverrunsExactly | xdm/access.c:1001-1028 | judging a client reads past a pattern iff there is an access file, the query is not indirect, and an entry without hosts has a pattern that is read past, before one decides |
| AccessQueries.OverrunsNeedBadPatterns | xdm/access.c:793-797 | without patterns or macro names that end in a lone backslash behind something else than a star, no question reads past one |
| AccessQueries.ChooserNeedsHosts | xdm/access.c:566-590 | an entry with CHOOSER and no hosts changes nothing for the chooser, wherever it is; where no earlier entry without hosts concerns the client, it decides as a direct entry |
| AccessQueries.AcceptableDisplayAddress | xdm/access.c:991-1032 | welcome iff the first matching entry without hosts allows it and this kind of query |
| AccessQueries.AcceptableExactly | xdm/access.c:991-1032 | welcome iff there is no access file, or the query is indirect, or the first entry without hosts for the client is not negated, and not closed to broadcasts if it is one: not if there is none |
| AccessQueries.UseChooser | xdm/access.c:893-934 | true iff the first matching entry with hosts is an allowed CHOOSER entry and no choice is current |
| AccessQueries.ForEachMatchingIndirectHost | xdm/access.c:836-891 | the hosts of the first matching entry, or the choice made, or the local host |
| AccessQueries.ChoiceIsFollowed | xdm/access.c:868-881 | behind a CHOOSER entry the client's choice is called unless it is local, and nothing else; the local host is reached iff there is no choice or it is local |
| AccessQueries.NoEntryNoTargets | xdm/access.c:845-890 | no entry with hosts for the client, or a negated one first: no calls, and not the local host |
| AccessQueries.IndirectReachesExactly | xdm/access.c:836-891 | without a chooser an indirect query goes to exactly the reachable hosts of the first entry with hosts, unless that is a negated one |
| AccessWords.WrittenFileIsReadBack | xdm/access.c:243-605 | any lines of words, escaped, indented, with comments and blank lines between them, whatever names resolve: each line gives the entry that starts with its first known display and has its known hosts |
| AccessWords.ReadBackExactly | xdm/access.c:430-605 | a written file is read back word for word iff every name in it resolves |
| AccessWords.HostsAreRead | xdm/access.c:566-590 | the host words of a line that resolve, up to its end |
| AccessWords.WordLengthLimit | xdm/access.c:261-305 | a word is read iff it has at most 253 characters |
| AccessWords.ContinuationExactly | xdm/access.c:285-293 | backslash-newline continues a line iff no word is in progress; otherwise it ends word and line |
| AccessWords.AccessFile.ReadWord | xdm/access.c:247-306 | the buffered loop reads the specified word and leaves the specified rest |
| AccessWords.AccessFile.ReadHostEntry | xdm/access.c:308-414 | the next host word that resolves, if the line has one |
| AccessWords.AccessFile.ReadHostWords | xdm/access.c:566-590 | the host words that resolve, until the end of the line |
| AccessWords.AccessFile.ReadDisplayEntry | xdm/access.c:430-591 | the next entry; after a display word that does not resolve the next word is taken for one |
| AccessWords.AccessFile.ReadAccessDatabase | xdm/access.c:593-605 | all entries of the file |
| Globbing.MatcherIsSound | xdm/access.c:771-806 | a match is a match of the declarative case-insensitive relation, for patterns without a trailing lone backslash |
| Globbing.MatcherIsCompleteExactly | xdm/access.c:783-797 | it agrees with that relation on every subject iff the pattern does not end in two adjacent unescaped stars |
| Globbing.OverrunExactly | xdm/access.c:793-797 | some subject makes it read past the pattern iff a lone backslash ends the pattern and the star before it, if any, is not the end of what it means |
| Globbing.LoneBackslashNeverMatches | xdm/access.c:793-797 | a pattern that ends in a lone backslash matches nothing |
| Globbing.CaseIsIgnored | xdm/access.c:800-803 | strings that differ in the case of letters alone get the same verdict from every pattern |
| Globbing.ScanDecidesStrictGlob | xdm/access.c:771-806 | the exact relation the backtracking decides, in which a star eats at least what its search skips |
| Globbing.PatternMatch | xdm/access.c:771-806 | the loop with its recursive call gives that verdict |
| Listeners.ListenSockets.UpdateListenSockets | xdm/socket.c:490-525 | open are exactly the addresses of the access file, or the default, that were open or could be bound; survivors keep their descriptor and are joined to exactly their groups; mask and memberships agree; every open, close, join and leave is a difference, and none is asked for when nothing differs |
| Listeners.StaysReconciled | xdm/socket.c:490-525 | after an update the sockets match, and still do for the same configuration unless more addresses can be bound: a second update asks for nothing |
| Listeners.ListensExactly | xdm/socket.c:330-525 | after an update there is a socket at an address iff a line is for it, an empty line for the IPv6 wildcard, or the IPv4 one where that is not to be had; it is in exactly the groups of those lines |
| Listeners.LinesExactly | xdm/access.c:1034-1085 | the lines are those of LISTEN entries with hosts, or the wildcard with the default groups iff there is no LISTEN entry |
| Listeners.NothingLeftToDo | xdm/socket.c:490-525 | when sockets match no operation is called for |
| Listeners.ListenerIsMarked | xdm/socket.c:330-377 | one listener callback extends the marks by its line's target, opened or found |
| Listeners.ListenSockets.UpdateListener | xdm/socket.c:330-377 | the wildcard tries IPv6 then IPv4; a known address is marked, an unknown one bound; failure changes nothing |
| Listeners.ListenSockets.UpdateMcastGroup | xdm/socket.c:463-488 | marks or joins at the socket the closure points at; nothing without one |
| Listeners.ListenSockets.ForEachListenAddr | xdm/access.c:1034-1085 | marked is exactly what the LISTEN entries with hosts ask for, or the wildcard and the default groups iff there is no LISTEN entry at all |
| Listeners.ListenSockets.Sweep | xdm/socket.c:503-524 | unmarked sockets closed, unmarked groups left, the rest untouched |
| Listeners.ListenSockets.CloseListener | xdm/socket.c:211-233 | descriptor out of the mask, memberships gone, entry unlinked |
| Listeners.ListenSockets.FindInList | xdm/socket.c:235-265 | the entry at the address |
| Listeners.ListenSockets.CloseListenSockets | xdm/socket.c:529-539 | only the chooser's socket is left in the mask |
| XAuthority.SetUserAuthorization | xdm/auth.c:1239-1298 | the new records, cookie first, then every old record whose key was not written, in order |
| XAuthority.RemoveUserAuthorization | xdm/auth.c:1331-1402 | the old records whose key is not one of the session's, in order |
| XAuthority.InstalledExactly | xdm/auth.c:739-1298 | a record is in the new file iff it is one authorization's, under one of the addresses that is for, with the display's number and that authorization's data, or none for Kerberos; or it was in the old file under a key no authorization has |
| XAuthority.CookieComesFirst | xdm/auth.c:1243-1262 | the first record is the first magic cookie's, if there is one and an address |
| XAuthority.NumberIsRead | xdm/auth.c:1070-1096 | the number is what stands between the last colon of the display name and the next dot |
| XAuthority.InstallingTwiceIsOnce | xdm/auth.c:1239-1298 | with the same authorizations and addresses, installing again changes nothing |
| XAuthority.RemovingAfterInstalling | xdm/auth.c:1355-1383 | removal after installation gives the old file without the written keys, and the old file itself iff none collided |
| XAuthority.RemovalCoversInstallation | xdm/auth.c:1239-1383 | removal takes out exactly the keys installation wrote |
| XAuthority.AuthWriter.CheckEntry | xdm/auth.c:716-735 | true iff the key was written |
| XAuthority.AuthWriter.SaveEntry | xdm/auth.c:668-714 | the key is noted |
| XAuthority.AuthWriter.WriteAddr | xdm/auth.c:749-763 | one record under the address, noted, and written only when writing |
| XAuthority.AuthWriter.DefineSelf | xdm/auth.c:808-846 | one record per interface address that is not passed over |
| XAuthority.AuthWriter.WriteLocalAuth | xdm/auth.c:1098-1115 | the display number from its name, the interface addresses, the host name |
| XAuthority.AuthWriter.WriteAuth | xdm/auth.c:1098-1141 | local or remote by the display and its peer; nothing without a peer |
| XAuthority.AuthWriter.CopyRest | xdm/auth.c:1283-1298 | old records follow in order unless their key was written |
| LineEditor.Field.Perform | greeter/Login.c:957-1160 | any actions, up to one that would put a NUL in: scroll start, cursor, length and buffer stay in bounds, and the field holds what the two-sided text holds |
| LineEditor.InsertThenBackspaces | greeter/Login.c:1438-1458 | an insert adds exactly the longest prefix that fits, and as many backspaces undo it |
| LineEditor.MovesKeepTheText | greeter/Login.c:1018-1123 | moves change the cursor only |
| LineEditor.MovesAsCursor | greeter/Login.c:1018-1123 | a move shifts a cursor in the whole text by one, or to an end, as far as the text goes |
| LineEditor.DeletionsAsCursor | greeter/Login.c:957-1160 | deletions take out the character before or at the cursor, erasures what follows it or all |
| LineEditor.ForwardReaches | greeter/Login.c:1047-1072 | every place is reached from the beginning by as many steps forward |
| LineEditor.CursorWithinTextExactly | greeter/Login.c:1450-1455 | after the two copies of an insert the cursor is within the text iff no NUL was put in; else the text ends at the first |
| LineEditor.InsertedText | greeter/Login.c:1450-1455 | the two copies put the input between left and right text, terminated |
| LineEditor.DeletedText | greeter/Login.c:957-978 | the copy takes out the character at the cursor, terminated |
| LineEditor.Field.InsertChar | greeter/Login.c:1438-1458 | input cut to the room left, put in at the cursor; the cursor is within the text afterwards iff no NUL was put in |
| LineEditor.Field.DeleteChar | greeter/Login.c:957-978 | the character at the cursor goes, and the window is put back over the cursor |
| LineEditor.Field.DrawValue | greeter/Login.c:405-432 | the window is chosen anew exactly when what is to be drawn does not fit; then it lies within the text, fits, holds the cursor, and would not fit with one character more |
| LineEditor.Field.EraseLine | greeter/Login.c:1150-1160 | empty text |
| LineEditor.Field.ResetPromptCursor | greeter/Login.c:893-893 | the cursor goes back, and all is well iff nothing was scrolled |
| Entropy.MixingIsInjective | xdm/genauth.c:139-166 | for any input words different pools never become the same |
| Entropy.MixCanBeUndone | xdm/genauth.c:151-165 | one step can be undone knowing its word |
| Entropy.WordsAreRecoverable | xdm/genauth.c:139-166 | from a known start up to 32 words can be recovered from the final pool |
| Entropy.ThirtyThreeWordsCollide | xdm/genauth.c:139-166 | 33 words cannot, from any start: two different inputs give the same pool |
| Entropy.TwistIsBijective | xdm/genauth.c:165-165 | the table step loses no bits |
| Entropy.FoldIsBijective | xdm/genauth.c:159-165 | folding in the taps loses nothing of the cell |
| Entropy.NextRound | xdm/genauth.c:139-166 | 32 words later it is the same cell's turn, the rotation seven further |
| Entropy.EntropyPool.AddEntropy | xdm/genauth.c:139-166 | the word loop over the array mixes every word, in order |

## Left out

- Signals, alarms, setjmp, exec and kill: their effect is nondeterministic, and a killed child is seen when it is reaped. The signals sent to sessions and servers are not modelled, and the shutdown handler runs between steps, not inside one.
- Allocation failures, the debug mode without fork, logging, the pid file and configuration loading; resources a display starts with are read from a map that may change between steps.
- Starting an X server: an outcome, a live process or failure, with its retries and pauses inside.
- A display's authority file, and the fields its resources set.
- The FAILED packet sent when an XDMCP display cannot be opened, packet lengths and versions, and DNS: names, local addresses and host names are functions fixed during a step.
- A long is taken to have 64 bits, and the code to be built with TCP connections and IPv6, without which a connection of those families would not be usable.
- What an undefined read does: the model stops there. What an indirect query forwards before its walk reads past a macro's name is not kept. Comparisons that end at the first difference are taken not to run past the end of a shorter array.
- `XdmcpIncrementKey`, `XdmcpWrap` and `XdmcpUnwrap` belong to libXdmcp, which is not part of this model: the first adds one to eight bytes with the last lowest, the other two are functions of key and block, inverse to each other where a lemma says so.
- The choice between pattern and address for an access entry, the number of hops after a host, and what CHOOSER, NOBROADCAST and the wildcard among the hosts do to an entry: rules come as data.
- `ForEachChooserHost`: the same walk as an indirect query with broadcasts on.
- Listeners.ListenSockets.UpdateMcastGroup: joining and leaving a group is taken to succeed; the code logs a failure and goes on as if it had not.
- LISTEN hosts that are macros: the code reads an address where the entry holds a name.
- `FD_ANYSET`, which scans as many bytes as a pointer has, is not part of this model.
- Kerberos and Secure RPC authorizations, except that a Kerberos record is written without its data; the lock, the backup file and the renaming around .Xauthority.
- LineEditor.Field.Perform: stops before an action that puts a NUL into the text, since what follows works on a cursor outside it; `SetValue`, which may write at the index of the maximum, `TabField` and drawing are not modelled.
- The pmd5 rounds, the sources of entropy and the system's random devices.
- Listening sockets, multicast groups, choices and indirect clients are sequences instead of nodes with next pointers.
