/** How the console client renders a text received from the server: a
    private message and a system notice lose their bracketed tag and gain
    an icon, everything else is shown as it came; every rendering starts on
    a new line. */
module ChatClient {
  import opened Text
  import opened Wrappers
  import opened ChatProtocol
  import opened ChatServer

  function FormatMessage(message: string): string {
    if StartsWith(message, "[ЛС]") then "\n📩 " + message[4..]
    else if StartsWith(message, "[СИСТЕМА]") then "\n⚡ " + message[9..]
    else if StartsWith(message, "[ПОМОЩЬ]") then "\n" + message
    else if StartsWith(message, "[ПОЛЬЗОВАТЕЛИ]") then "\n" + message
    else "\n" + message
  }

  /** The two tags the client recognises are replaced by their icons,
      and what follows the tag is shown unchanged. */
  lemma FormatTagged(rest: string)
    ensures FormatMessage(PrivatePrefix + rest) == "\n📩 " + rest
    ensures FormatMessage(SystemPrefix + rest) == "\n⚡ " + rest
  {
    var p := PrivatePrefix + rest;
    assert p[..4] == PrivatePrefix && p[4..] == rest;
    var m := SystemPrefix + rest;
    assert m[1] == 'С' && PrivatePrefix[1] == 'Л';
    assert m[..4] != PrivatePrefix;
    assert m[..9] == SystemPrefix && m[9..] == rest;
  }

  /** Whatever arrives, the rendering starts on a new line; no text
      carries both tags, so at most one tag is stripped; a tagged text
      loses exactly its tag behind the icon and any other is shown as it
      came. */
  lemma FormatShape(message: string)
    ensures FormatMessage(message) != [] && FormatMessage(message)[0] == '\n'
    ensures !(StartsWith(message, PrivatePrefix) && StartsWith(message, SystemPrefix))
    ensures StartsWith(message, PrivatePrefix) ==>
              FormatMessage(message) == "\n📩 " + message[|PrivatePrefix|..]
    ensures StartsWith(message, SystemPrefix) ==>
              FormatMessage(message) == "\n⚡ " + message[|SystemPrefix|..]
    ensures !StartsWith(message, PrivatePrefix) && !StartsWith(message, SystemPrefix) ==>
              FormatMessage(message) == "\n" + message
  {
    if StartsWith(message, PrivatePrefix) {
      assert message == PrivatePrefix + message[|PrivatePrefix|..];
      assert message[..|PrivatePrefix|][1] == message[1] == 'Л';
      if |SystemPrefix| <= |message| {
        assert message[..|SystemPrefix|][1] == message[1] != SystemPrefix[1];
      }
      FormatTagged(message[|PrivatePrefix|..]);
    } else if StartsWith(message, SystemPrefix) {
      assert message == SystemPrefix + message[|SystemPrefix|..];
      FormatTagged(message[|SystemPrefix|..]);
    } else {
      FormatOtherVerbatim(message);
    }
  }

  /** A private message is shown with its sender, time and text intact,
      the tag replaced by the envelope icon. */
  lemma FormatPrivateMessage(senderName: string, stamp: string, body: string)
    ensures FormatMessage(PrivateText(senderName, stamp, body))
            == "\n📩 " + (" от " + senderName + " (" + stamp + "): " + body)
  {
    var rest := " от " + senderName + " (" + stamp + "): " + body;
    assert PrivateText(senderName, stamp, body) == PrivatePrefix + rest;
    FormatTagged(rest);
  }

  /** A server notice is shown with the lightning icon in place of the
      system tag; the space that followed the tag stays, so the text is
      preceded by two spaces. */
  lemma FormatNotice(text: string)
    ensures FormatMessage(Notice(text)) == "\n⚡ " + (" " + text)
  {
    assert Notice(text) == SystemPrefix + (" " + text);
    FormatTagged(" " + text);
  }

  /** Any other text, such as the help text, the user list or a chat line
      from a user whose name does not start with a tag, is shown unchanged
      on a new line. */
  lemma FormatOtherVerbatim(message: string)
    requires !StartsWith(message, PrivatePrefix) && !StartsWith(message, SystemPrefix)
    ensures FormatMessage(message) == "\n" + message
  {
  }

  /** The help text is shown as it came. */
  lemma FormatHelp()
    ensures FormatMessage(HelpText) == "\n" + HelpText
  {
    var h := HelpText;
    assert h[0] == '\n';
    Untagged(h, 0);
    FormatOtherVerbatim(h);
  }

  /** The user list is shown as it came. */
  lemma FormatUsers(names: seq<string>)
    ensures FormatMessage(UsersListText(names)) == "\n" + UsersListText(names)
  {
    var u := UsersListText(names);
    assert u[1] == 'П';
    Untagged(u, 1);
    FormatOtherVerbatim(u);
  }

  /** A text whose first or second character differs from both tags'
      carries neither tag. */
  lemma Untagged(m: string, i: nat)
    requires i < 2 && i < |m| && m[i] != PrivatePrefix[i] && m[i] != SystemPrefix[i]
    ensures !StartsWith(m, PrivatePrefix) && !StartsWith(m, SystemPrefix)
  {
    if |PrivatePrefix| <= |m| {
      assert m[..|PrivatePrefix|][i] == m[i];
    }
    if |SystemPrefix| <= |m| {
      assert m[..|SystemPrefix|][i] == m[i];
    }
  }

  /** The server accepts a name that starts with the system tag, as long
      as it is free and does not end in whitespace. */
  lemma SystemTaggedNameAccepted(rest: string, users: map<string, Socket>)
    requires rest == [] || !IsSpace(rest[|rest| - 1])
    requires SystemPrefix + rest !in users
    ensures Refusal(Some(SystemPrefix + rest), users) == None
  {
    var name := SystemPrefix + rest;
    assert name[0] == '[';
    assert name[|name| - 1] == (if rest == [] then ']' else rest[|rest| - 1]);
    StripUnchanged(name);
  }

  /** The chat lines of a user whose name starts with the system tag are
      rendered exactly like server notices: such a user can pass their
      words off as the server's. */
  lemma SystemTaggedNameSpoofsNotices(rest: string, stamp: string, text: string, ws: Socket,
                                      clients: map<Socket, string>)
    requires ws in clients && clients[ws] == SystemPrefix + rest
    ensures FormatMessage(Stamped(text, Some(ws), clients, stamp))
            == "\n⚡ " + (rest + " (" + stamp + "): " + text)
  {
    var tail := rest + " (" + stamp + "): " + text;
    assert Stamped(text, Some(ws), clients, stamp) == SystemPrefix + rest + " (" + stamp + "): " + text;
    assert SystemPrefix + rest + " (" + stamp + "): " + text == SystemPrefix + tail;
    FormatTagged(tail);
  }
}
