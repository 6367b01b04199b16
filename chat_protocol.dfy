/** The chat server's message texts and the decisions it takes on a single
    line of input, as values: command dispatch, the replies to each
    command, private-message routing and broadcast recipient selection.
    A socket is an opaque identifier; a send is an addressed text. */
module ChatProtocol {
  import opened Seqs
  import opened Text
  import opened Wrappers

  type Socket = int

  /** One text sent over one connection. */
  datatype Send = Send(to: Socket, text: string)

  const PrivatePrefix: string := "[ЛС]"
  const SystemPrefix: string := "[СИСТЕМА]"
  const HelpPrefix: string := "[ПОМОЩЬ]"
  const UsersPrefix: string := "[ПОЛЬЗОВАТЕЛИ]"

  /** A server notice: the system prefix, a space, the text. */
  function Notice(text: string): string {
    SystemPrefix + " " + text
  }

  const NamePrompt: string := Notice("Введите ваше имя: ")
  const TimeoutNotice: string := Notice("Время ожидания истекло")
  const NameTakenNotice: string := Notice("Это имя уже занято. Отключение...")
  const NameEmptyNotice: string := Notice("Имя не может быть пустым. Отключение...")
  const GoodbyeNotice: string := Notice("До свидания!")
  const PrivateUsageNotice: string := Notice("Использование: /private username сообщение")
  const SelfMessageNotice: string := Notice("Нельзя отправить сообщение самому себе")

  function WelcomeNotice(name: string): string {
    Notice("Добро пожаловать, " + name + "! Введите /help для списка команд")
  }

  function JoinedText(name: string): string {
    "🔵 " + name + " присоединился к чату"
  }

  function LeftText(name: string): string {
    "🔴 " + name + " вышел из чата"
  }

  function UnknownCommandNotice(command: string): string {
    Notice("Неизвестная команда: " + command + ". Введите /help для помощи")
  }

  function NotFoundNotice(name: string): string {
    Notice("Пользователь '" + name + "' не найден или не в сети")
  }

  function DeliveredNotice(name: string): string {
    Notice("✓ Сообщение для " + name + " отправлено")
  }

  function PrivateText(senderName: string, stamp: string, body: string): string {
    PrivatePrefix + " от " + senderName + " (" + stamp + "): " + body
  }

  /** The help text, the same for every user. */
  const HelpText: string :=
    "\n" + HelpPrefix + "\n=== Доступные команды ===\n/help - показать это сообщение\n"
    + "/users - список пользователей онлайн\n/private <username> <message> - отправить личное сообщение\n"
    + "/exit - выйти из чата\n"

  /** One bullet line per name, in order. */
  function Bullets(names: seq<string>): (lines: seq<string>)
    ensures |lines| == |names|
    ensures forall i | 0 <= i < |names| :: lines[i] == "• " + names[i]
  {
    if names == [] then [] else ["• " + names[0]] + Bullets(names[1..])
  }

  function UsersListText(names: seq<string>): string {
    if names == [] then UsersPrefix + "\nНет пользователей онлайн"
    else UsersPrefix + "\n=== Пользователи онлайн (" + NatToString(|names|) + ") ===\n"
         + Join(Bullets(names), "\n")
  }

  /** The user list announces the number of names it lists and then lists
      each of them, in order, one bullet line each. */
  lemma UsersListShowsEveryName(names: seq<string>)
    requires names != []
    ensures exists count: string, body: string ::
              UsersListText(names) == UsersPrefix + "\n=== Пользователи онлайн (" + count + ") ===\n" + body
              && DigitsValue(count) == |names| && body == Join(Bullets(names), "\n")
    ensures forall i | 0 <= i < |names| :: Bullets(names)[i] == "• " + names[i]
  {
    NatToStringRoundTrip(|names|);
    var count := NatToString(|names|);
    var body := Join(Bullets(names), "\n");
    assert UsersListText(names) == UsersPrefix + "\n=== Пользователи онлайн (" + count + ") ===\n" + body;
  }

  /** What one line of input asks for. */
  datatype Command =
    | Blank
    | Help
    | Users
    | Private(parts: seq<string>)
    | Exit
    | Unknown(command: string)
    | Chat(text: string)

  /** The command a first word names, compared after lower-casing. */
  function Named(command: string, parts: seq<string>): (c: Command)
    ensures !c.Chat? && !c.Blank?
    ensures c.Private? <==> command == "/private"
    ensures c.Private? ==> c.parts == parts
  {
    if command == "/help" then Help
    else if command == "/users" then Users
    else if command == "/private" then Private(parts)
    else if command == "/exit" then Exit
    else Unknown(command)
  }

  /** Classifies a line: stripped of surrounding whitespace, an empty line
      is ignored, a line starting with '/' is a command chosen by its first
      word compared case-insensitively, and anything else is chat. */
  function Dispatch(data: string): Command {
    var message := Strip(data);
    if message == [] then Blank
    else if message[0] == '/' then
      SplitHead(message);
      var parts := Split(message);
      Named(Lower(parts[0]), parts)
    else Chat(message)
  }

  /** Surrounding whitespace never changes how a line is read. */
  lemma DispatchIgnoresSurroundingSpace(data: string)
    ensures Dispatch(Strip(data)) == Dispatch(data)
  {
    StripIdempotent(data);
  }

  /** A line is ignored exactly when it holds nothing but whitespace. */
  lemma DispatchBlankIffAllSpace(data: string)
    ensures Dispatch(data).Blank? <==> AllSpace(data)
  {
    StripEmptyIffAllSpace(data);
  }

  /** A line is chat exactly when its stripped text is non-empty and does
      not start with '/', and then the stripped text is what is sent. */
  lemma DispatchChatIff(data: string)
    ensures Dispatch(data).Chat? <==> Strip(data) != [] && Strip(data)[0] != '/'
    ensures Dispatch(data).Chat? ==> Dispatch(data).text == Strip(data)
  {
  }

  /** Any line starting with '/' is a command and never reaches the other
      users; an unrecognised one is echoed back lower-cased. */
  lemma DispatchCommandNeverChat(data: string)
    requires Strip(data) != [] && Strip(data)[0] == '/'
    ensures !Dispatch(data).Chat? && !Dispatch(data).Blank?
    ensures Dispatch(data).Unknown? ==>
              Dispatch(data).command == Lower(Split(Strip(data))[0])
              && Dispatch(data).command != "/help" && Dispatch(data).command != "/users"
              && Dispatch(data).command != "/private" && Dispatch(data).command != "/exit"
  {
    DispatchCommandLine(data);
    var parts := Split(Strip(data));
    NamedUnknown(Lower(parts[0]), parts);
  }

  /** Only a word that names no command is reported as unknown, and it is
      reported as it was given. */
  lemma NamedUnknown(command: string, parts: seq<string>)
    ensures Named(command, parts).Unknown? <==>
              command != "/help" && command != "/users" && command != "/private" && command != "/exit"
    ensures Named(command, parts).Unknown? ==> Named(command, parts).command == command
  {
  }

  /** A private-message command carries the words of its line, the first
      being "/private" in any letter case. */
  lemma DispatchPrivateParts(data: string)
    requires Dispatch(data).Private?
    ensures Strip(data) != [] && Dispatch(data).parts == Split(Strip(data))
    ensures |Dispatch(data).parts| >= 1 && Lower(Dispatch(data).parts[0]) == "/private"
    ensures forall k | 0 <= k < |Dispatch(data).parts| ::
              Dispatch(data).parts[k] != [] && NoSpace(Dispatch(data).parts[k])
  {
    DispatchCommandLine(data);
    SplitWords(Strip(data));
  }

  /** Commands are recognised whatever the case of their letters: a
      command line reads as its lower-cased self, except that a private
      message keeps the case of its words. */
  lemma DispatchCaseInsensitive(data: string)
    requires Strip(data) != [] && Strip(data)[0] == '/'
    ensures Dispatch(data).Private? <==> Dispatch(Lower(Strip(data))).Private?
    ensures !Dispatch(data).Private? ==> Dispatch(data) == Dispatch(Lower(Strip(data)))
  {
    var message := Strip(data);
    var lowered := Lower(message);
    assert lowered[0] == '/' by { assert lowered[0] == LowerChar(message[0]); }
    var parts := Split(message);
    var loweredParts := Split(lowered);
    var command := Lower(parts[0]) by { SplitHead(message); }
    assert Dispatch(data) == Named(command, parts) by { DispatchCommandLine(data); }
    assert Dispatch(lowered) == Named(command, loweredParts) by {
      StripEnds(data);
      LowerKeepsStripped(message);
      DispatchCommandLine(lowered);
      LowerSplitHead(message);
      LowerIdempotent(parts[0]);
    }
    NamedIgnoresWords(command, parts, loweredParts);
  }

  /** A command line is read by its lower-cased first word. */
  lemma DispatchCommandLine(data: string)
    requires Strip(data) != [] && Strip(data)[0] == '/'
    ensures Split(Strip(data)) != []
    ensures Dispatch(data) == Named(Lower(Split(Strip(data))[0]), Split(Strip(data)))
  {
    SplitHead(Strip(data));
  }

  /** Lower-casing a text with no surrounding whitespace leaves none. */
  lemma LowerKeepsStripped(message: string)
    requires message != [] && !IsSpace(message[0]) && !IsSpace(message[|message| - 1])
    ensures Strip(Lower(message)) == Lower(message)
  {
    var lowered := Lower(message);
    assert lowered[0] == LowerChar(message[0]);
    assert lowered[|lowered| - 1] == LowerChar(message[|message| - 1]);
    StripUnchanged(lowered);
  }

  /** Only a private message depends on the words after the command. */
  lemma NamedIgnoresWords(command: string, parts: seq<string>, others: seq<string>)
    ensures Named(command, parts).Private? == Named(command, others).Private?
    ensures !Named(command, parts).Private? ==> Named(command, parts) == Named(command, others)
  {
  }

  /** Lower-casing a text lower-cases its first word. */
  lemma LowerSplitHead(s: string)
    requires s != [] && !IsSpace(s[0])
    ensures Split(Lower(s)) != [] && Split(s) != []
    ensures Split(Lower(s))[0] == Lower(Split(s)[0])
  {
    var t := Lower(s);
    assert t[0] == LowerChar(s[0]);
    SplitFirst(s);
    SplitFirst(t);
    LowerWordLength(s);
    LowerPrefix(s, WordLength(s));
  }

  lemma LowerPrefix(s: string, n: nat)
    requires n <= |s|
    ensures Lower(s)[..n] == Lower(s[..n])
  {
  }

  lemma {:induction false} LowerWordLength(s: string)
    ensures WordLength(Lower(s)) == WordLength(s)
  {
    if s != [] && !IsSpace(s[0]) {
      assert Lower(s)[1..] == Lower(s[1..]);
      LowerWordLength(s[1..]);
    }
  }

  /** The sends a private-message command produces, before any of them
      is attempted: a usage notice, an unknown-recipient notice, a refusal
      to message oneself, or the message followed by a confirmation. */
  function PrivateSends(sender: Socket, senderName: string, parts: seq<string>,
                        users: map<string, Socket>, stamp: string): seq<Send>
  {
    if |parts| < 3 then [Send(sender, PrivateUsageNotice)]
    else if parts[1] !in users then [Send(sender, NotFoundNotice(parts[1]))]
    else if parts[1] == senderName then [Send(sender, SelfMessageNotice)]
    else [Send(users[parts[1]], PrivateText(senderName, stamp, Join(parts[2..], " "))),
          Send(sender, DeliveredNotice(parts[1]))]
  }

  /** A private message goes to the named online user only, never to the
      sender, and only when the command names a recipient, a text and
      someone other than the sender; every other outcome is one notice to
      the sender. */
  lemma PrivateRouting(sender: Socket, senderName: string, parts: seq<string>,
                       users: map<string, Socket>, stamp: string)
    requires senderName in users ==> users[senderName] == sender
    requires forall n | n in users :: users[n] == sender ==> n == senderName
    ensures var out := PrivateSends(sender, senderName, parts, users, stamp);
            (exists i | 0 <= i < |out| :: out[i].to != sender)
            <==> |parts| >= 3 && parts[1] in users && parts[1] != senderName
    ensures var out := PrivateSends(sender, senderName, parts, users, stamp);
            forall i | 0 <= i < |out| && out[i].to != sender ::
              |parts| >= 3 && parts[1] in users && out[i].to == users[parts[1]] && i == 0
    ensures var out := PrivateSends(sender, senderName, parts, users, stamp);
            out != [] && out[|out| - 1].to == sender
  {
    var out := PrivateSends(sender, senderName, parts, users, stamp);
    if |parts| >= 3 && parts[1] in users && parts[1] != senderName {
      assert out[0].to == users[parts[1]] != sender;
    }
  }

  /** The text of a private message is the command's words after the
      recipient, rejoined: splitting it again gives exactly those words. */
  lemma PrivateBodyKeepsWords(data: string)
    requires Dispatch(data).Private?
    ensures var parts := Dispatch(data).parts;
            |parts| >= 3 ==> Split(Join(parts[2..], " ")) == parts[2..]
  {
    DispatchPrivateParts(data);
    var parts := Dispatch(data).parts;
    if |parts| >= 3 {
      WordsAfterSplitBack(parts, 2);
    }
  }

  /** The words from position `n` on, joined with single spaces, split
      back into themselves. */
  lemma WordsAfterSplitBack(parts: seq<string>, n: nat)
    requires n <= |parts|
    requires forall k | 0 <= k < |parts| :: parts[k] != [] && NoSpace(parts[k])
    ensures Split(Join(parts[n..], " ")) == parts[n..]
  {
    var rest := parts[n..];
    forall k | 0 <= k < |rest| ensures rest[k] != [] && NoSpace(rest[k]) {
      assert rest[k] == parts[k + n];
    }
    SplitJoin(rest);
  }

  /** The replies a command other than chat produces for the user who sent
      it; `names` are the online users in registration order. */
  function Replies(ws: Socket, username: string, c: Command, names: seq<string>,
                   users: map<string, Socket>, stamp: string): seq<Send>
    requires !c.Chat?
  {
    match c
    case Blank => []
    case Help => [Send(ws, HelpText)]
    case Users => [Send(ws, UsersListText(names))]
    case Private(parts) => PrivateSends(ws, username, parts, users, stamp)
    case Exit => [Send(ws, GoodbyeNotice)]
    case Unknown(command) => [Send(ws, UnknownCommandNotice(command))]
  }

  /** Only a private message is sent to anyone but the user who typed the
      command. */
  lemma RepliesStayWithSender(ws: Socket, username: string, c: Command, names: seq<string>,
                              users: map<string, Socket>, stamp: string)
    requires !c.Chat? && !c.Private?
    ensures forall s | s in Replies(ws, username, c, names, users, stamp) :: s.to == ws
    ensures |Replies(ws, username, c, names, users, stamp)| == (if c.Blank? then 0 else 1)
  {
    match c
    case Blank =>
    case Help => assert Replies(ws, username, c, names, users, stamp) == [Send(ws, HelpText)];
    case Users =>
    case Exit =>
    case Unknown(command) =>
  }

  /** The sends actually made when `sends` are attempted in order and a
      send to a closed connection raises, abandoning the rest. */
  datatype Delivery = Delivery(sent: seq<Send>, raised: bool)

  function Deliver(sends: seq<Send>, broken: set<Socket>): (d: Delivery)
    ensures |d.sent| <= |sends| && d.sent == sends[..|d.sent|]
    ensures forall i | 0 <= i < |d.sent| :: d.sent[i].to !in broken
    ensures d.raised <==> exists i | 0 <= i < |sends| :: sends[i].to in broken
    ensures d.raised ==> sends[|d.sent|].to in broken
    ensures !d.raised ==> d.sent == sends
  {
    if sends == [] then Delivery([], false)
    else if sends[0].to in broken then Delivery([], true)
    else
      var rest := Deliver(sends[1..], broken);
      assert forall i | 1 <= i < |sends| :: sends[i] == sends[1..][i - 1];
      Delivery([sends[0]] + rest.sent, rest.raised)
  }

  /** A private message to a user whose connection has closed raises in
      the sender's session: the sender gets no confirmation and that
      session ends. */
  lemma PrivateToClosedRecipientRaises(sender: Socket, senderName: string, parts: seq<string>,
                                       users: map<string, Socket>, stamp: string, broken: set<Socket>)
    requires |parts| >= 3 && parts[1] in users && parts[1] != senderName
    requires users[parts[1]] in broken
    ensures Deliver(PrivateSends(sender, senderName, parts, users, stamp), broken) == Delivery([], true)
  {
  }

  /** The text a broadcast carries: the sender's name and the time when the
      sender is a connected user, a system notice otherwise. */
  function Stamped(text: string, sender: Option<Socket>, clients: map<Socket, string>, stamp: string): string {
    if sender.Some? && sender.value in clients then clients[sender.value] + " (" + stamp + "): " + text
    else Notice(text)
  }

  /** The connections a broadcast reaches: all except the sender's and the
      closed ones, in registration order. */
  function Reached(order: seq<Socket>, sender: Option<Socket>, broken: set<Socket>): seq<Socket> {
    if order == [] then []
    else (if Some(order[0]) != sender && order[0] !in broken then [order[0]] else [])
         + Reached(order[1..], sender, broken)
  }

  /** The connections a broadcast fails on, in registration order. */
  function Failed(order: seq<Socket>, sender: Option<Socket>, broken: set<Socket>): seq<Socket> {
    if order == [] then []
    else (if Some(order[0]) != sender && order[0] in broken then [order[0]] else [])
         + Failed(order[1..], sender, broken)
  }

  /** A broadcast reaches every open connection other than the sender's
      exactly once, and fails on exactly the closed ones. */
  lemma {:induction false} ReachedExactly(order: seq<Socket>, sender: Option<Socket>, broken: set<Socket>)
    requires Distinct(order)
    ensures forall ws :: ws in Reached(order, sender, broken)
                         <==> ws in order && Some(ws) != sender && ws !in broken
    ensures forall ws :: ws in Failed(order, sender, broken)
                         <==> ws in order && Some(ws) != sender && ws in broken
    ensures Distinct(Reached(order, sender, broken)) && Distinct(Failed(order, sender, broken))
  {
    if order != [] {
      DistinctTail(order);
      ReachedExactly(order[1..], sender, broken);
      assert order == [order[0]] + order[1..];
      var r := Reached(order, sender, broken);
      var f := Failed(order, sender, broken);
      if Some(order[0]) != sender && order[0] !in broken {
        assert Distinct(r) by {
          PrependDistinct(order[0], Reached(order[1..], sender, broken));
        }
      }
      if Some(order[0]) != sender && order[0] in broken {
        assert Distinct(f) by {
          PrependDistinct(order[0], Failed(order[1..], sender, broken));
        }
      }
    }
  }

  /** Every connection a broadcast fails on is a closed one. */
  lemma {:induction false} FailedClosed(order: seq<Socket>, sender: Option<Socket>, broken: set<Socket>)
    ensures forall k | 0 <= k < |Failed(order, sender, broken)| :: Failed(order, sender, broken)[k] in broken
  {
    if order != [] {
      FailedClosed(order[1..], sender, broken);
      var rest := Failed(order[1..], sender, broken);
      if Some(order[0]) != sender && order[0] in broken {
        var f := Failed(order, sender, broken);
        assert f == [order[0]] + rest;
        forall k | 0 <= k < |f| ensures f[k] in broken {
          if k > 0 {
            assert f[k] == rest[k - 1];
          }
        }
      }
    }
  }

  /** A broadcast over connections that are all open, the sender's aside,
      fails on none of them. */
  lemma {:induction false} NothingFailed(order: seq<Socket>, sender: Option<Socket>, broken: set<Socket>)
    requires forall i | 0 <= i < |order| && Some(order[i]) != sender :: order[i] !in broken
    ensures Failed(order, sender, broken) == []
  {
    if order != [] {
      assert forall i | 0 <= i < |order[1..]| :: order[1..][i] == order[i + 1];
      NothingFailed(order[1..], sender, broken);
    }
  }

  /** One send of `text` to each socket, in order. */
  function Addressed(targets: seq<Socket>, text: string): (out: seq<Send>)
    ensures |out| == |targets|
    ensures forall i | 0 <= i < |targets| :: out[i] == Send(targets[i], text)
  {
    if targets == [] then [] else [Send(targets[0], text)] + Addressed(targets[1..], text)
  }
}
