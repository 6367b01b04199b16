# Cinema booking and chat server, modelled in Dafny

This project models two small programs and proves what they promise.

**The cinema booking system** (`parallilism/task_4.py`). It has four halls, each with a set of free seat numbers and a reservation log. Five shows are wired to those halls; m1 and m5 share hall_a. Booking a show goes through these checks in order:

1. the show exists;
2. it has not started;
3. its hall exists;
4. an admission permit is free (a semaphore of 4).

The booking then enters a retry loop. Each pass checks that the seats are in range and that every seat is free; if so, it removes them one by one and appends a log entry. A release gives seats back only when every seat is in range and taken. A group booking books each member in turn, under the id `group * 100 + i + 1`.

- **`Inventory`** holds one hall's behaviour as pure functions on the free set: the attempt, the remove loop and the release.
- **`Cinema`** holds the stateful part:
  - `Hall` is a class whose `free` set and `log` the methods update.
  - `BookingSystem` is a class holding the schedule, the show-to-hall wiring, the halls and the permit count.
  - Each of their methods is proved against the `Inventory` functions.

**The chat server** (`websocet/server.py`) and its client's renderer (`websocet/client.py`). The server keeps two registries: connection to name, and name to connection. A connecting user is prompted for a name, which is refused when it is taken or empty once stripped. An admitted user is welcomed and announced to everyone, the new user included. From then on each line is stripped and handled as follows:

- An empty line is ignored.
- A line starting with `/` is a command. It is chosen by its first word, lower-cased: `/help`, `/users`, `/private <name> <text>`, `/exit`, or anything else, which is an unknown command.
- Any other line is chat, broadcast with the sender's name and the time.

A broadcast that fails on a connection disconnects it. A disconnection announces the departure, which is a broadcast in turn.

- **`Text`** has stripping, whitespace splitting, lower-casing and joining.
- **`ChatProtocol`** has the message texts, command dispatch, private-message routing and the choice of broadcast recipients, as values.
- **`ChatServer`** has `Server`, a class whose registries, registration order and outbox (every text actually sent) the coroutines update.
- **`ChatClient`** has the client's `format_message`.

Sends to a closed connection raise. The model takes the set of such connections (`broken`) as a parameter, and the clock reading (`stamp`) likewise.

Behaviours of the code as written that the model keeps and proves:

- Sending a private message to a user whose connection has closed raises in the sender's session. The sender gets no confirmation, and the sender's session ends.
- A system notice reaches the client as `[СИСТЕМА] text`, so the client shows it with two spaces after the icon.
- The server accepts a name that starts with `[СИСТЕМА]`. That user's chat lines are then rendered exactly like server notices.
- Member ids of a group with more than 100 requests run into the next group's ids.
- A repeated seat number in one booking passes the availability check. The remove loop then raises on it, leaving the seats before it removed and logging nothing.

## Model

| member | source | states |
|---|---|---|
| Inventory.Range | parallilism/task_4.py:21 | A new hall's seat numbers are exactly 1 .. capacity |
| Inventory.RangeSize | parallilism/task_4.py:21 | A new hall has `capacity` seats (none when the capacity is negative) |
| Inventory.FreshHall | parallilism/task_4.py:18-21 | A new hall's free set is its whole range and lies within the hall |
| Inventory.AllFreeIsSubset | parallilism/task_4.py:139 | "Every requested seat is free" is the same as "the requested seats are a subset of the free set" |
| Inventory.RemoveSeats | parallilism/task_4.py:147-148 | The remove loop only removes requested seats; when it does not raise, it removes exactly them |
| Inventory.RemoveSeatsCompletes | parallilism/task_4.py:147-148 | The remove loop finishes without raising iff every seat is free and no seat is repeated |
| Inventory.RepeatedSeatRaises | parallilism/task_4.py:147-148 | A repeated seat raises, leaving exactly the seats before it removed |
| Inventory.RemoveFree | parallilism/task_4.py:147-148 | A seat that is not free raises, leaving exactly the seats before it removed |
| Inventory.AttemptBooks | parallilism/task_4.py:137-165 | In-range, free, distinct seats are booked; exactly those seats leave the free set, which shrinks by their number |
| Inventory.AllOrNothing | parallilism/task_4.py:137-171 | A booking succeeds only for in-range, free, distinct seats, and then removes exactly them. Every refusal leaves the hall unchanged. Only the repeated-seat error changes it partially |
| Inventory.OutOfRangeRejected | parallilism/task_4.py:140-143 | A seat outside 1 .. capacity makes the booking fail as invalid, with the hall unchanged |
| Inventory.TakenSeatRejected | parallilism/task_4.py:139-171 | In range but with a taken seat, every retry fails and the booking ends as taken, with the hall unchanged |
| Inventory.NoFuelReportsTaken | parallilism/task_4.py:137-171 | With no time to wait the loop never runs, so the booking reports the seats taken whatever they are |
| Inventory.EmptyRequestBooked | parallilism/task_4.py:139-165 | A request for no seats succeeds and leaves the hall unchanged |
| Inventory.Attempt | parallilism/task_4.py:137-171 | One booking attempt once the show checks and the permit are passed. With no pass left the seats are reported taken. Otherwise seats out of range are invalid, a taken seat is reported taken, and free seats go through the remove loop, which books them or raises. Its properties are `AllOrNothing`, `AttemptBooks` and the lemmas beside them |
| Inventory.AttemptKeepsRange | parallilism/task_4.py:137-165 | A booking only removes seats, so the free set stays within the hall |
| Inventory.ReleaseKeepsRange | parallilism/task_4.py:186-195 | A release only adds in-range seats. A rejected release changes nothing |
| Inventory.Release | parallilism/task_4.py:186-195 | A release is accepted iff every seat is taken and in range, and then adds exactly those seats back; otherwise the free set is unchanged. Its properties are `ReleaseKeepsRange`, `ReleaseUndoesBooking` and `DoubleReleaseRejected` |
| Inventory.ReleaseUndoesBooking | parallilism/task_4.py:186-195 | Releasing the seats of a successful booking is accepted and restores the free set from before the booking |
| Inventory.DoubleReleaseRejected | parallilism/task_4.py:186-191 | Releasing the same non-empty seats twice is rejected the second time |
| Inventory.OccupancyAccounting | parallilism/task_4.py:262-267 | Free and occupied seats are disjoint and together number the capacity |
| Inventory.FreeCountBounded | parallilism/task_4.py:257-266 | The number of free seats is at most the capacity, and the occupied count is the capacity minus it |
| Cinema.MemberId | parallilism/task_4.py:231 | Member i of group g books under id `g * 100 + i + 1`; `MemberIdsCollisionFree` and `MemberIdsCollideAfterHundred` say when ids clash |
| Cinema.MemberIdsCollisionFree | parallilism/task_4.py:231 | For at most 100 requests per group, two member ids are equal iff they have the same group and position |
| Cinema.MemberIdsCollideAfterHundred | parallilism/task_4.py:231 | The 101st member of group g gets the id of group g+1's first member |
| Cinema.GroupRun | parallilism/task_4.py:230-245 | A group's requests are tried in order against one hall; the run stops early only right after a request whose remove loop raised, no earlier request raised, and seats only leave the free set |
| Cinema.GroupSeatsDisjoint | parallilism/task_4.py:230-245 | No seat is booked twice within a group: each booked request's seats were free at the start and are taken at the end, and no two booked requests share a seat |
| Cinema.Successes | parallilism/task_4.py:234-239 | The members whose booking succeeded, in order: the group's successful list |
| Cinema.Failures | parallilism/task_4.py:240-245 | The members whose booking failed, in order: the group's failed list |
| Cinema.SuccessesAndFailuresPartition | parallilism/task_4.py:234-245 | Every member lands in exactly one of the successful and failed lists: successful iff booked |
| Cinema.SuccessesAppend | parallilism/task_4.py:234-245 | One more member extends exactly one of the two lists, in order |
| Cinema.Upcoming | parallilism/task_4.py:72-73 | The shows of the schedule, in insertion order, that start strictly after now; `UpcomingExactly` states it |
| Cinema.UpcomingExactly | parallilism/task_4.py:72-86 | The listing holds exactly the scheduled shows starting strictly after now, each once, in schedule order |
| Cinema.UpcomingAppend | parallilism/task_4.py:72-86 | Scanning one more show appends it to the listing iff it has not started |
| Cinema.BookingSystem.InitialSchedule | parallilism/task_4.py:50-56 | The five shows with their titles, capacities and start times of two, three, one, four and five hours after now |
| Cinema.BookingSystem.InitialWiring | parallilism/task_4.py:58-64 | Each show's hall: m1 and m5 in hall_a, m2 in hall_b, m3 in hall_c, m4 in hall_d |
| Cinema.InitialDataConsistent | parallilism/task_4.py:42-64 | Every show has a hall. Each show's capacity equals its hall's. m1 and m5 share hall_a. Every show is in the future |
| Cinema.Hall.constructor | parallilism/task_4.py:18-24 | A new hall has all its seats free and an empty log |
| Cinema.Hall.Book | parallilism/task_4.py:137-171 | The retry loop leaves the hall in the state of the booking attempt, keeps it within range, and logs exactly one reservation iff it booked |
| Cinema.Hall.RemoveEach | parallilism/task_4.py:147-148 | The remove loop on the hall's free set, seat by seat, ends as the remove function says, raising on the first seat no longer free |
| Cinema.BookingSystem.constructor | parallilism/task_4.py:28-37 | The system starts initialised with 4 permits, the initial schedule, show order and wiring, and four fresh halls |
| Cinema.BookingSystem.InitializeData | parallilism/task_4.py:39-66 | Initialisation runs once. A second call changes nothing; the first loads the halls, schedule and wiring |
| Cinema.BookingSystem.Load | parallilism/task_4.py:42-66 | Installing halls, schedule and wiring leaves a consistent, wired system |
| Cinema.BookingSystem.InitialKeys | parallilism/task_4.py:50-64 | The initial schedule order lists each show once, the wiring covers exactly the scheduled shows, and every wired hall exists |
| Cinema.BookingSystem.NewHalls | parallilism/task_4.py:42-47 | The four initial halls are distinct new objects with their capacities, all seats free and empty logs |
| Cinema.BookingSystem.GetAvailableMovies | parallilism/task_4.py:68-88 | One listing per upcoming show, in schedule order, with its title, start, current free-seat count and capacity |
| Cinema.BookingSystem.CheckSeatAvailability | parallilism/task_4.py:90-98 | False for an unwired show; otherwise true iff every requested seat is free in its hall |
| Cinema.BookingSystem.HallStatistics | parallilism/task_4.py:250-268 | Nothing for an unknown hall. Otherwise that hall's id, its capacity, free count, occupied count (capacity minus free, adding up to the capacity) and number of bookings |
| Cinema.BookingSystem.Gate | parallilism/task_4.py:114-130 | A booking gets past the checks iff the show exists, has not started, has a hall and a permit is free; otherwise the refusal is one of the four, in that order |
| Cinema.BookingSystem.BookSeats | parallilism/task_4.py:100-174 | A refusal from the checks is the outcome and leaves all halls untouched. Otherwise the outcome, the hall's free set and its log are those of the booking attempt on the hall's free set before the call, and no other hall changes. The permit count is restored |
| Cinema.BookingSystem.ReleaseSeats | parallilism/task_4.py:176-205 | An unwired show is refused. Otherwise only the show's hall changes, as the guarded release says. No log changes |
| Cinema.BookingSystem.BookMember | parallilism/task_4.py:231-245 | One member's turn: booked under its id, filed by outcome, with the hall's free set and log following the group run by exactly that member |
| Cinema.BookingSystem.BookGroup | parallilism/task_4.py:230-245 | The member loop keeps every member processed so far under its id and seats, filed by outcome, with the hall's state matching the group run so far, until the requests run out or a member raises |
| Cinema.BookingSystem.ProcessGroupBooking | parallilism/task_4.py:207-248 | Members are processed in order, member i under id `group * 100 + i + 1` with its request. A refused show refuses every member alike and leaves all halls untouched. Otherwise each member's outcome is the group run's, from the hall's free set before the call; the hall ends with the run's free set, its log gains one reservation per booked member in order, and no other hall changes. The group stops right after the first member whose remove loop raised; otherwise the successful and failed lists partition the members by outcome |
| Text.IsSpace | websocet/server.py:93 | The characters that stripping and splitting treat as whitespace: the ASCII controls 9-13 and 28-31, the space and the Unicode spaces and separators |
| Text.Strip | websocet/server.py:108 | Whitespace removed from both ends; `StripSlice`, `StripEnds` and `StripIdempotent` state it |
| Text.Split | websocet/server.py:117 | The maximal runs of non-whitespace characters, in order; `SplitWords`, `SplitHead` and `SplitJoin` state it |
| Text.Lower | websocet/server.py:118 | Lower-casing character by character; the result has the input's length |
| Text.Join | websocet/server.py:42 | The parts with the separator between neighbours; `SplitJoin` states the round trip |
| Text.NatToString | websocet/server.py:30 | A count in decimal digits, never empty; `NatToStringRoundTrip` states it reads back |
| Text.StripSlice | websocet/server.py:93 | Stripping removes exactly a whitespace prefix and a whitespace suffix |
| Text.StripEnds | websocet/server.py:108 | A stripped non-empty text starts and ends with non-whitespace |
| Text.StripIdempotent | websocet/server.py:108 | Stripping twice is stripping once |
| Text.StripUnchanged | websocet/server.py:93 | A text without surrounding whitespace is its own stripped form |
| Text.StripEmptyIffAllSpace | websocet/server.py:99-101 | A text strips to nothing iff it is all whitespace |
| Text.SplitWords | websocet/server.py:117 | Every word of a split is non-empty and free of whitespace |
| Text.SplitEmptyIffAllSpace | websocet/server.py:117 | A text splits into no words iff it is all whitespace |
| Text.SplitHead | websocet/server.py:117-118 | A text starting with a non-space has a first word starting with that character |
| Text.LowerIdempotent | websocet/server.py:118 | Lower-casing twice is lower-casing once |
| Text.SplitJoin | websocet/server.py:42 | Joining non-empty, space-free words with single spaces and splitting again gives back the words |
| Text.NatToStringRoundTrip | websocet/server.py:30 | The decimal rendering of a count reads back as the count |
| ChatProtocol.UsersListText | websocet/server.py:27-33 | The user-list reply: the count and one bullet per name, or the no-users text; `UsersListShowsEveryName` states it |
| ChatProtocol.Bullets | websocet/server.py:29 | One bullet line per name, in order |
| ChatProtocol.UsersListShowsEveryName | websocet/server.py:27-33 | The user list announces the number of names and lists each of them, in order, one bullet each |
| ChatProtocol.Named | websocet/server.py:118-134 | A command word is never chat or blank. It is a private message iff it is `/private`, and then it carries the line's words |
| ChatProtocol.NamedUnknown | websocet/server.py:120-134 | A command word is unknown iff it is none of the four commands, and the unknown-command reply quotes it |
| ChatProtocol.Dispatch | websocet/server.py:108-137 | The line stripped: empty is ignored, a leading `/` makes a command chosen by its lower-cased first word, anything else is chat; the `Dispatch…` lemmas state it |
| ChatProtocol.DispatchIgnoresSurroundingSpace | websocet/server.py:108 | Surrounding whitespace never changes how a line is handled |
| ChatProtocol.DispatchBlankIffAllSpace | websocet/server.py:108-111 | A line is ignored iff it is all whitespace |
| ChatProtocol.DispatchChatIff | websocet/server.py:108-137 | A line is chat iff it is non-blank and does not start with `/` once stripped; the chat text is the stripped line |
| ChatProtocol.DispatchCommandNeverChat | websocet/server.py:116-134 | A line starting with `/` is never chat. When unknown, it reports its lower-cased first word, which is none of the four commands |
| ChatProtocol.DispatchCommandLine | websocet/server.py:116-118 | A command line is handled by its lower-cased first word, with all its words |
| ChatProtocol.DispatchPrivateParts | websocet/server.py:116-127 | A private-message command carries the split words of the stripped line; its first word lower-cases to `/private`; no word is empty or holds whitespace |
| ChatProtocol.DispatchCaseInsensitive | websocet/server.py:116-118 | Lower-casing a command line does not change which command it is; except for `/private`, whose words keep their case, the result is identical |
| ChatProtocol.PrivateSends | websocet/server.py:36-57 | The sends of a private message: the usage notice, the not-found notice, the refusal to message oneself, or the message to the recipient followed by the confirmation; `PrivateRouting` states it |
| ChatProtocol.PrivateRouting | websocet/server.py:36-57 | Something goes to someone other than the sender iff the command has a recipient and a text and the recipient is online and not the sender. Then exactly one message goes to that recipient, first. The sender always gets the last send |
| ChatProtocol.PrivateBodyKeepsWords | websocet/server.py:41-42 | The private text joined from the words after the recipient splits back into exactly those words |
| ChatProtocol.Replies | websocet/server.py:120-134 | The sends of each command: help text, user list, private-message sends, goodbye, unknown-command notice, none for a blank line |
| ChatProtocol.RepliesStayWithSender | websocet/server.py:120-134 | Every command other than a private message answers the sender alone, with one text (none for a blank line) |
| ChatProtocol.Deliver | websocet/server.py:52-57 | Sends go out in order until the first to a closed connection raises. It raises iff some target is closed, and everything sent before went to open connections |
| ChatProtocol.PrivateToClosedRecipientRaises | websocet/server.py:52-57 | A private message to a closed recipient raises before anything is sent, so no confirmation reaches the sender |
| ChatProtocol.Stamped | websocet/server.py:68-72 | A broadcast text is signed with the sender's name and the time when the sender is registered, and is a system notice otherwise |
| ChatProtocol.Reached | websocet/server.py:64-74 | The connections a broadcast sends to: every registered one but the sender's that is open, in order |
| ChatProtocol.Failed | websocet/server.py:64-74 | The connections a broadcast fails on: every registered one but the sender's that is closed, in order |
| ChatProtocol.ReachedExactly | websocet/server.py:64-74 | A broadcast reaches each open connection except the sender's exactly once, and fails on exactly the closed ones |
| ChatProtocol.FailedClosed | websocet/server.py:73-74 | Every connection a broadcast fails on is a closed one |
| ChatProtocol.NothingFailed | websocet/server.py:64-76 | A broadcast over open connections, the sender's aside, fails on none, so it disconnects nobody |
| ChatServer.Consistent | websocet/server.py:5-6 | The two registries are inverse maps over the same connections, the registration order lists each connection once, and no name is empty |
| ChatServer.NamesOf | websocet/server.py:29 | The online users' names in registration order |
| ChatServer.NamesExactly | websocet/server.py:28-30 | The listed names are exactly the online users, each once, as many as there are users |
| ChatServer.RegisterKeepsConsistent | websocet/server.py:102-103 | Registering a new connection under a free non-empty name keeps the two registries inverse to each other |
| ChatServer.UnregisterKeepsConsistent | websocet/server.py:79-83 | Removing a connection and its name keeps the two registries inverse to each other |
| ChatServer.Refusal | websocet/server.py:92-101 | The notice a connecting user is turned away with: timeout, name taken, or name empty, in that order; `RefusalIff` states it |
| ChatServer.RefusalIff | websocet/server.py:92-101 | A user is admitted iff a name arrived in time that is non-empty and free once stripped. The taken check comes before the empty check |
| ChatServer.Server.constructor | websocet/server.py:5-6 | The server starts with no clients, no users and nothing sent |
| ChatServer.Server.SendAll | websocet/server.py:120-134 | Attempting a command's replies records exactly what delivery sends and reports whether it raised |
| ChatServer.Server.SendRound | websocet/server.py:64-74 | The broadcast loop sends the text to exactly the reached connections, in order, and collects exactly the failed ones |
| ChatServer.Server.Broadcast | websocet/server.py:60-76 | Everyone reached gets the stamped text first. Only closed connections are then dropped, and every closed one other than the sender is dropped. Every later send is a departure notice of a dropped connection, to an open registered one; when no send fails, nothing more is sent and nothing changes. Every connection that leaves has its departure announced, after the call began, to every connection still registered at the end. The registration order keeps exactly the remaining clients, in their order |
| ChatServer.Server.DisconnectAll | websocet/server.py:75-76 | Every failed connection is disconnected. Only closed connections leave. Every send is a departure notice of a closed connection, to an open registered one; with no targets nothing happens. Every connection that leaves has its departure announced, after the call began, to every connection still registered at the end. The registration order keeps exactly the remaining clients, in their order |
| ChatServer.Server.DisconnectNext | websocet/server.py:75-76 | One step of the disconnection loop: the next failed connection leaves, only closed connections have left so far, and every send is a departure notice of a closed connection. Every connection that has left so far had its departure announced to every connection still registered |
| ChatServer.Server.HandleDisconnect | websocet/server.py:79-84 | A registered connection is removed and its departure is announced to the others first. Every later send is a departure notice of a closed connection, to an open one still registered; when no other connection is closed, nothing more is sent. An unregistered one changes nothing. Every connection that leaves has its departure announced, after the call began, to every connection still registered at the end. The registries stay consistent, and the registration order loses the connection and anyone the announcement dropped |
| ChatServer.Server.Depart | websocet/server.py:80-84 | The registered case of a disconnection: the connection is forgotten and its departure announced to every open connection still registered, before anything else is sent. Later sends are departure notices of closed connections; every departure is announced to everyone still registered |
| ChatServer.Server.Forget | websocet/server.py:81-83 | The connection and its name leave both registries and the registration order, the registries stay consistent, and nothing is sent |
| ChatServer.Server.Connect | websocet/server.py:88-105 | A closed connection is dropped silently. A refused user gets the prompt and the refusal, and the registries are unchanged. An admitted user is registered under the stripped name, prompted and welcomed, and then announced; every later send is a departure notice of a closed connection, and when none is closed nothing more is sent. The user joins the end of the registration order, which then keeps only those still connected. No open connection loses or changes its name. The outbox only grows, and every departure in the handshake is announced to everyone still registered |
| ChatServer.Server.Admit | websocet/server.py:102-105 | A free, non-empty name is registered, welcomed and announced to everyone, the new user included; the user joins the end of the registration order; every later send is a departure notice of a closed connection, and every departure is announced to everyone still registered |
| ChatServer.Server.HandleMessage | websocet/server.py:113-137 | A command's replies are delivered to the sender (and the recipient), with the registries unchanged; the session ends on `/exit` or a failed send. Chat is broadcast to everyone else and never ends the session; every later send is a departure notice of a closed connection, and when none but the sender's is closed nothing more is sent. No open connection loses or changes its name, the registration order only loses those removed, the outbox only grows, and every departure is announced to everyone still registered |
| ChatServer.Server.HandleLine | websocet/server.py:107-137 | A line is handled as its dispatch says. A command's replies are delivered to the sender (and the recipient) with the registries unchanged; the session ends on `/exit` or a failed send. Chat is broadcast to everyone else and never ends the session; every later send is a departure notice of a closed connection, and when none but the sender's is closed nothing more is sent. No open connection loses or changes its name, the registration order only loses those removed, the outbox only grows, and every departure is announced to everyone still registered |
| ChatServer.Server.Serve | websocet/server.py:88-144 | Whatever happens in a session, its connection is unregistered at the end, the registries stay consistent, and no other connection gains or changes a name. No open connection other than its own is dropped, the registration order ends as before, less those removed, and every departure during the session, its own included, is announced to everyone still registered |
| ChatServer.Server.Session | websocet/server.py:88-142 | A session up to its disconnection: no connection but its own is added, no open one is dropped or renamed, the registration order is the old one plus this connection, less those removed, and every departure is announced to everyone still registered |
| ChatServer.Server.Converse | websocet/server.py:107-137 | The message loop keeps the registries consistent and never registers or renames anyone. No open connection is dropped, the registration order only loses those removed, the outbox only grows, and every departure is announced to everyone still registered |
| ChatClient.FormatMessage | websocet/client.py:11-21 | The client's rendering of a received text; `FormatShape` and the lemmas below state it |
| ChatClient.FormatShape | websocet/client.py:11-21 | Every rendering starts on a new line; no text carries both tags; a tagged text loses exactly its tag behind its icon and any other text is shown unchanged |
| ChatClient.FormatTagged | websocet/client.py:11-15 | The private and system tags are replaced by their icons; what follows the tag is shown unchanged |
| ChatClient.FormatPrivateMessage | websocet/client.py:12-13 | A private message is shown with its sender, time and text intact behind the envelope icon |
| ChatClient.FormatNotice | websocet/client.py:14-15 | A server notice is shown behind the lightning icon with two spaces before its text |
| ChatClient.FormatOtherVerbatim | websocet/client.py:16-21 | Any text carrying neither tag is shown unchanged on a new line |
| ChatClient.FormatHelp | websocet/client.py:16-17 | The help text is shown unchanged |
| ChatClient.FormatUsers | websocet/client.py:18-19 | The user list is shown unchanged |
| ChatClient.SystemTaggedNameAccepted | websocet/server.py:92-103 | A free name starting with the system tag is admitted |
| ChatClient.SystemTaggedNameSpoofsNotices | websocet/client.py:14-15 | Chat from a user named with the system tag is rendered exactly like a server notice |

## Left out

- Threads, locks, condition variables and the semaphore's blocking are not modelled. Operations run one at a time. The semaphore is a permit count, and no permit left means the admission timeout.
- Wall-clock time is not modelled. The current time is the parameter `now` (an integer). The retry loop's time budget is a pass count, `fuel`, because in a sequential run nothing frees seats between passes. The chat timestamp is the string parameter `stamp`.
- Printing and the human-readable result messages are not modelled. A booking's message is reduced to which branch produced it. A group member keeps its id, seats and outcome.
- `booking_time`, `time` and the reservation log's timestamps are not modelled. A log entry keeps the user, show, title and seats.
- The `waiting_queue` and `queue_lock` fields are not modelled, since no core operation uses them.
- Cinema.BookingSystem.GetAvailableMovies: requires every scheduled show to be wired to an existing hall. A show wired to a missing hall makes the listing raise KeyError, which is not modelled; no state that initialisation builds has one.
- Cinema.BookingSystem.CheckSeatAvailability: requires a wired show's hall to exist. A missing hall makes the check raise KeyError, which is not modelled; no state that initialisation builds has one.
- The simulation drivers in `task_4.py` and the other files in `parallilism/` are not part of this model.
- The websocket transport is not modelled: the listening socket, `recv` and the 30-second name timeout. A name reply that never came is `None`, and a session's lines are a given sequence.
- The client's connection, input and receive loops in `client.py` are not modelled. Only `format_message` is.
- Which connections are closed (`broken`) is fixed for the length of one call. A peer that disconnects midway through a broadcast is not modelled.
- `IsSpace` covers the whitespace characters that `str.strip()` and `str.split()` treat as whitespace. `LowerChar` covers ASCII and basic Cyrillic capitals only, not the full Unicode case mapping of `str.lower()`.
- ChatServer.Server.Converse: states what happens to the registries and the registration order, and that every departure is announced, but not the exact sends of the whole loop, which are those of `HandleLine` line by line.
- ChatServer.Server.Serve: states the end state of the registries and the registration order, and that every departure is announced, but not the session's exact sends. These are given by `Connect`, `HandleLine` and `HandleDisconnect` in turn.
