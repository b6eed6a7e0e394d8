/**
 * The browser side of the chat (`client/script.js`): how `ws.onmessage`
 * reads an incoming `A|B|C` string, the strings `onopen`, `sendMessage` and
 * `disconnect` send, and the input checks of `connect`. The page itself
 * (the DOM, alerts, focus) is left out; what the handler would display is
 * returned as a value.
 */
module Browser {
  import opened Wrappers
  import opened Text
  import Registry
  import Chat
  import Session

  /** The style `addMessage` gives a chat line. */
  datatype Kind = SystemLine | OwnLine | OtherLine

  /** What `ws.onmessage` does with one incoming string. */
  datatype Shown =
    | UserList(count: Option<nat>, users: seq<string>)
    | Line(sender: string, text: string, timestamp: string, kind: Kind)
    | Ignored

  /**
   * `ws.onmessage`: a `USERLIST` of at least three fields updates the list
   * (a count of None is `parseInt` giving NaN); any other string of at least
   * three fields becomes a line, its fourth and later fields dropped; the
   * rest is ignored. `username` is the name this page connected with.
   */
  function Classify(data: string, username: string): (r: Shown)
    ensures r.Ignored? <==> CountChar(data, '|') < 2
    ensures r.Line? ==> !(r.sender == "USERLIST")
    ensures r.Line? ==> (r.kind == SystemLine <==> r.sender == "SYSTEM")
    ensures r.Line? ==> (r.kind == OwnLine <==> r.sender == username && r.sender != "SYSTEM")
  {
    var parts := Split(data, "|");
    SplitLength(data, '|');
    if parts[0] == "USERLIST" && |parts| >= 3 then
      UserList(ParseInt(parts[1]), if parts[2] == "" then [] else Split(parts[2], ","))
    else if |parts| >= 3 then
      var kind := if parts[0] == "SYSTEM" then SystemLine else if parts[0] == username then OwnLine else OtherLine;
      Line(parts[0], parts[1], parts[2], kind)
    else Ignored
  }

  /** `username + '|JOIN|' + getTimestamp()`, sent by `onopen`. */
  function JoinMessage(username: string, timestamp: string): string
  {
    username + "|JOIN|" + timestamp
  }

  /** `username + '|LEAVE|' + getTimestamp()`, sent by `disconnect`. */
  function LeaveMessage(username: string, timestamp: string): string
  {
    username + "|LEAVE|" + timestamp
  }

  /**
   * `sendMessage`: the trimmed input as `username|message|timestamp`, or
   * nothing when the trimmed input is empty or the socket is not open.
   */
  function SendMessage(input: string, username: string, timestamp: string, open: bool): (r: Option<string>)
    ensures r.None? <==> !open || AllSpace(input, IsJsSpace)
  {
    TrimEmpty(input, IsJsSpace);
    var message := JsTrim(input);
    if message == "" || !open then None
    else Some(username + "|" + message + "|" + timestamp)
  }

  /** The first field of `a|rest`, when `a` has no `|`, is `a`. */
  lemma SplitFirstField(a: string, rest: string)
    requires '|' !in a
    ensures Split(a + "|" + rest, "|")[0] == a
  {
    var tail := "|" + rest;
    assert a + "|" + rest == a + tail;
    assert Split(a + tail, "|") == SplitFrom(a + tail, "|", "");
    SplitFromPlain(a, tail, "|", "");
    assert "" + a == a;
    SplitFromAtSep(rest, "|", a);
    assert SplitFrom(tail, "|", a) == [a] + SplitFrom(rest, "|", "");
  }

  /** `disconnect`: the leave message when there is a socket, then the page resets. */
  function Disconnect(connected: bool, username: string, timestamp: string): (sent: seq<string>)
    ensures |sent| <= 1
  {
    if connected then [LeaveMessage(username, timestamp)] else []
  }

  /** What `connect` goes on with: the trimmed username and the address to open. */
  datatype Connecting = Connecting(username: string, url: string)

  /** `connect`: nothing happens when the trimmed username or the trimmed address is empty. */
  function Connect(nameInput: string, addressInput: string): (r: Option<Connecting>)
    ensures r.Some? ==> |r.value.username| > 0
  {
    var username := JsTrim(nameInput);
    var address := JsTrim(addressInput);
    if username == "" || address == "" then None
    else Some(Connecting(username, "ws://" + address))
  }

  /**
   * `connect` goes on exactly when neither input is blank, and the name it
   * goes on with neither begins nor ends with white space.
   */
  lemma ConnectChecks(nameInput: string, addressInput: string)
    ensures Connect(nameInput, addressInput).None?
      <==> AllSpace(nameInput, IsJsSpace) || AllSpace(addressInput, IsJsSpace)
    ensures var r := Connect(nameInput, addressInput);
      r.Some? ==> !IsJsSpace(r.value.username[0]) && !IsJsSpace(r.value.username[|r.value.username| - 1])
  {
    TrimEmpty(nameInput, IsJsSpace);
    TrimEmpty(addressInput, IsJsSpace);
  }

  // ---------------------------------------------------------------------
  // the wire formats of the two sides agree

  // Helpers for the lemmas below: the page's strings as `Join`s of their fields.

  /** Helper: the join message is its three fields joined by `|`. */
  lemma JoinMessageFields(username: string, timestamp: string)
    ensures JoinMessage(username, timestamp) == Join([username, "JOIN", timestamp], "|")
  {
    JoinCons(username, ["JOIN", timestamp], "|");
    JoinCons("JOIN", [timestamp], "|");
    assert [username] + ["JOIN", timestamp] == [username, "JOIN", timestamp];
    assert ["JOIN"] + [timestamp] == ["JOIN", timestamp];
  }

  /** Helper: the leave message is its three fields joined by `|`. */
  lemma LeaveMessageFields(username: string, timestamp: string)
    ensures LeaveMessage(username, timestamp) == Join([username, "LEAVE", timestamp], "|")
  {
    JoinCons(username, ["LEAVE", timestamp], "|");
    JoinCons("LEAVE", [timestamp], "|");
    assert [username] + ["LEAVE", timestamp] == [username, "LEAVE", timestamp];
    assert ["LEAVE"] + [timestamp] == ["LEAVE", timestamp];
  }

  /** Helper: three strings glued with `|` are their `Join`. */
  lemma ThreeFields(a: string, b: string, c: string)
    ensures a + "|" + b + "|" + c == Join([a, b, c], "|")
  {
    JoinCons(a, [b, c], "|");
    JoinCons(b, [c], "|");
    assert [a] + [b, c] == [a, b, c];
    assert [b] + [c] == [b, c];
  }

  /** Helper: three `|`-free fields split back into themselves. */
  lemma SplitThree(a: string, b: string, c: string)
    requires '|' !in a && '|' !in b && '|' !in c
    ensures Split(Join([a, b, c], "|"), "|") == [a, b, c]
  {
    SplitTwoFields(a, b, c, '|');
    SplitWhole(c, '|');
  }

  /**
   * The page's join message registers its username with the server: the
   * server maps the socket to exactly the name the page connected with.
   */
  lemma JoinRegistersName(s: Chat.State, sock: Registry.Sock, username: string, timestamp: string, now: string, fails: Chat.Failures)
    requires Chat.Valid(s)
    requires '|' !in username
    ensures var r := Chat.OnMessage(s, sock, JoinMessage(username, timestamp), now, fails);
      Registry.AsMap(r.table) == Registry.AsMap(s.table)[sock := username] - fails.first - fails.second
  {
    JoinMessageFields(username, timestamp);
    Chat.JoinTable(s, sock, username, timestamp, now, fails);
  }

  /** The page's leave message changes nothing on the server. */
  lemma LeaveChangesNothing(s: Chat.State, sock: Registry.Sock, username: string, timestamp: string, now: string, fails: Chat.Failures)
    requires Chat.Valid(s)
    requires '|' !in username
    ensures Chat.OnMessage(s, sock, LeaveMessage(username, timestamp), now, fails) == s
  {
    LeaveMessageFields(username, timestamp);
    Chat.LeaveIgnored(s, sock, username, timestamp, now, fails);
  }

  /**
   * `disconnect` on an open socket: the server ignores the leave message,
   * and the socket's close alone unregisters the user and tells the others.
   */
  lemma DisconnectLeavesToClose(s: Chat.State, sock: Registry.Sock, username: string, timestamp: string,
                                now: string, fails: seq<Chat.Failures>)
    requires Chat.Valid(s)
    requires '|' !in username
    ensures var sent := Disconnect(true, username, timestamp);
      && |sent| == 1
      && Chat.Serve(s, sock, [Session.Delivered(sent[0]), Session.Closed], now, fails)
         == Chat.OnClose(s, sock, now, Chat.FailuresAt(fails, 1))
  {
    var events := [Session.Delivered(LeaveMessage(username, timestamp)), Session.Closed];
    var later := Chat.Later(fails);
    LeaveChangesNothing(s, sock, username, timestamp, now, Chat.FailuresAt(fails, 0));
    assert Chat.Step(s, sock, events[0], now, Chat.FailuresAt(fails, 0)) == s;
    assert events[1..] == [Session.Closed];
    assert Chat.Serve(s, sock, events, now, fails) == Chat.Serve(s, sock, [Session.Closed], now, later);
    assert [Session.Closed][1..] == [];
    Chat.LaterAt(fails, 0);
    assert Chat.Serve(s, sock, [Session.Closed], now, later)
        == Chat.Serve(Chat.OnClose(s, sock, now, Chat.FailuresAt(fails, 1)), sock, [], now, Chat.Later(later));
    assert Disconnect(true, username, timestamp) == [LeaveMessage(username, timestamp)];
  }

  /**
   * A username `a|b` with one `|`, where `b` is neither `JOIN` nor `LEAVE`,
   * which `connect` accepts, is not registered by its join message: that
   * message splits with `b` as field 2, so the server relays it as a chat
   * line instead.
   */
  lemma PipeNameNotRegistered(s: Chat.State, sock: Registry.Sock, a: string, b: string, timestamp: string,
                              now: string, fails: Chat.Failures, x: Registry.Sock)
    requires Chat.Valid(s)
    requires '|' !in a && '|' !in b && b != "JOIN" && b != "LEAVE"
    ensures var m := JoinMessage(a + "|" + b, timestamp);
      var r := Chat.OnMessage(s, sock, m, now, fails);
      && (sock !in Registry.AsMap(s.table) ==> sock !in Registry.AsMap(r.table))
      && Registry.Inbox(r.log, x) == Registry.Inbox(s.log, x)
           + (if x in Registry.AsMap(s.table) && x !in fails.first then [m] else [])
  {
    var m := JoinMessage(a + "|" + b, timestamp);
    var tail := "JOIN|" + timestamp;
    assert m == a + "|" + b + "|" + tail by {
      assert "|JOIN|" == "|" + "JOIN|";
    }
    ThreeFields(a, b, tail);
    SplitTwoFields(a, b, tail, '|');
    Chat.RelayEffect(s, sock, m, now, fails, x);
  }

  /** The join message of a username `a|c` splits as `a`, `c`, then `JOIN|timestamp`. */
  lemma PipeJoinFields(a: string, c: string, timestamp: string)
    ensures JoinMessage(a + "|" + c, timestamp) == Join([a, c, "JOIN|" + timestamp], "|")
  {
    assert JoinMessage(a + "|" + c, timestamp) == a + "|" + c + "|" + ("JOIN|" + timestamp) by {
      assert "|JOIN|" == "|" + "JOIN|";
    }
    ThreeFields(a, c, "JOIN|" + timestamp);
  }

  /** A username `a|JOIN` is registered as `a`: its join message reads as a JOIN from `a`. */
  lemma PipeJoinNameRegistersPrefix(s: Chat.State, sock: Registry.Sock, a: string, timestamp: string,
                                    now: string, fails: Chat.Failures)
    requires Chat.Valid(s)
    requires '|' !in a
    ensures var r := Chat.OnMessage(s, sock, JoinMessage(a + "|JOIN", timestamp), now, fails);
      Registry.AsMap(r.table) == Registry.AsMap(s.table)[sock := a] - fails.first - fails.second
  {
    assert a + "|JOIN" == a + "|" + "JOIN";
    PipeJoinFields(a, "JOIN", timestamp);
    Chat.JoinTable(s, sock, a, "JOIN|" + timestamp, now, fails);
  }

  /** A username `a|LEAVE` is never registered: its join message reads as a LEAVE and changes nothing. */
  lemma PipeLeaveNameIgnored(s: Chat.State, sock: Registry.Sock, a: string, timestamp: string,
                             now: string, fails: Chat.Failures)
    requires Chat.Valid(s)
    requires '|' !in a
    ensures Chat.OnMessage(s, sock, JoinMessage(a + "|LEAVE", timestamp), now, fails) == s
  {
    assert a + "|LEAVE" == a + "|" + "LEAVE";
    PipeJoinFields(a, "LEAVE", timestamp);
    Chat.LeaveIgnored(s, sock, a, "JOIN|" + timestamp, now, fails);
  }

  /**
   * A chat input that trims to exactly `LEAVE` is sent as
   * `username|LEAVE|timestamp` and the server drops it: nobody sees it.
   */
  lemma TypedLeaveDropped(s: Chat.State, sock: Registry.Sock, input: string, username: string, timestamp: string, now: string, fails: Chat.Failures)
    requires Chat.Valid(s)
    requires '|' !in username
    requires JsTrim(input) == "LEAVE"
    ensures SendMessage(input, username, timestamp, true) == Some(LeaveMessage(username, timestamp))
    ensures Chat.OnMessage(s, sock, SendMessage(input, username, timestamp, true).value, now, fails) == s
  {
    ThreeFields(username, "LEAVE", timestamp);
    LeaveMessageFields(username, timestamp);
    Chat.LeaveIgnored(s, sock, username, timestamp, now, fails);
  }

  /**
   * The `USERLIST` string the server builds is read back by the page as
   * exactly the server's count and names, in order, provided every name is
   * non-empty and free of `,` and `|`.
   */
  lemma UserListRoundTrip(t: seq<Registry.Client>, username: string)
    requires forall i :: 0 <= i < |t| ==> t[i].username != "" && ',' !in t[i].username && '|' !in t[i].username
    ensures Classify(Registry.UserListMessage(t), username)
      == UserList(Some(|t|), Registry.AllUsernames(t))
  {
    var names := Registry.AllUsernames(t);
    var count := Decimal(|names|);
    var list := Join(names, ",");
    assert NoneContain(names, '|') && NoneContain(names, ',');
    JoinAvoids(names, ",", '|');
    assert '|' !in count by {
      assert forall i :: 0 <= i < |count| ==> IsDigit(count[i]);
    }
    ThreeFields("USERLIST", count, list);
    assert "USERLIST|" == "USERLIST" + "|";
    SplitThree("USERLIST", count, list);
    ParseIntDecimal(|names|);
    if |names| > 0 {
      JoinNonEmpty(names, ",");
      SplitJoin(names, ",");
    } else {
      assert list == "";
    }
  }

  /** The join of names whose first is non-empty is non-empty. */
  lemma JoinNonEmpty(parts: seq<string>, sep: string)
    requires |parts| > 0 && parts[0] != ""
    ensures Join(parts, sep) != ""
  {
  }

  /** A name that is the empty string is lost: the page shows the count but an empty list. */
  lemma EmptyNameLost(sock: Registry.Sock, username: string)
    ensures Classify(Registry.UserListMessage([Registry.Client(sock, "")]), username)
      == UserList(Some(1), [])
  {
    var t := [Registry.Client(sock, "")];
    assert Registry.AllUsernames(t) == [""];
    assert Join([""], ",") == "";
    assert Decimal(1) == "1";
    ThreeFields("USERLIST", "1", "");
    assert "USERLIST|" == "USERLIST" + "|";
    SplitThree("USERLIST", "1", "");
    ParseIntDecimal(1);
  }

  /** A system notice without `|` in it is shown as a system line with its text and time. */
  lemma SystemRoundTrip(message: string, timestamp: string, username: string)
    requires '|' !in message && '|' !in timestamp
    ensures Classify(Registry.SystemMessage(message, timestamp), username)
      == Line("SYSTEM", message, timestamp, SystemLine)
  {
    ThreeFields("SYSTEM", message, timestamp);
    assert "SYSTEM|" == "SYSTEM" + "|";
    SplitThree("SYSTEM", message, timestamp);
  }

  /**
   * A chat line the page sends comes back, relayed verbatim, as its own
   * line with the same text and time, unless the username is `SYSTEM` or
   * `USERLIST` or some field holds a `|`.
   */
  lemma OwnLineRoundTrip(input: string, username: string, timestamp: string)
    requires '|' !in username && '|' !in JsTrim(input) && '|' !in timestamp
    requires username != "SYSTEM" && username != "USERLIST"
    requires !AllSpace(input, IsJsSpace)
    ensures SendMessage(input, username, timestamp, true).Some?
    ensures Classify(SendMessage(input, username, timestamp, true).value, username)
      == Line(username, JsTrim(input), timestamp, OwnLine)
  {
    ThreeFields(username, JsTrim(input), timestamp);
    SplitThree(username, JsTrim(input), timestamp);
  }

  /** Another user's line is shown as theirs, not as this page's own. */
  lemma OthersLine(sender: string, text: string, timestamp: string, username: string)
    requires '|' !in sender && '|' !in text && '|' !in timestamp
    requires sender != "SYSTEM" && sender != "USERLIST" && sender != username
    ensures Classify(Join([sender, text, timestamp], "|"), username)
      == Line(sender, text, timestamp, OtherLine)
  {
    SplitThree(sender, text, timestamp);
  }

  /**
   * A user named `SYSTEM` gets their chat shown to everyone, themselves
   * included, as a system notice.
   */
  lemma SystemNameSpoofs(text: string, timestamp: string, username: string)
    requires '|' !in text && '|' !in timestamp
    ensures Classify(Join(["SYSTEM", text, timestamp], "|"), username).Line?
    ensures Classify(Join(["SYSTEM", text, timestamp], "|"), username).kind == SystemLine
  {
    SplitThree("SYSTEM", text, timestamp);
  }

  /**
   * A user named `USERLIST` who types a number replaces every page's
   * count with it, read as an exact integer (the page's `parseInt` yields
   * a double, which agrees up to 2^53).
   */
  lemma UserListNameSpoofs(n: nat, timestamp: string, username: string)
    requires '|' !in timestamp
    ensures Classify(Join(["USERLIST", Decimal(n), timestamp], "|"), username).UserList?
    ensures Classify(Join(["USERLIST", Decimal(n), timestamp], "|"), username).count == Some(n)
  {
    assert '|' !in Decimal(n) by {
      assert forall i :: 0 <= i < |Decimal(n)| ==> IsDigit(Decimal(n)[i]);
    }
    SplitThree("USERLIST", Decimal(n), timestamp);
    ParseIntDecimal(n);
  }

  /**
   * A `|` typed into a message cuts it: the page shows the text before it,
   * shows the text after it as the time, and drops the real time.
   */
  lemma PipeCutsMessage(username: string, before: string, after: string, timestamp: string, me: string)
    requires '|' !in username && '|' !in before && '|' !in after
    requires username != "SYSTEM" && username != "USERLIST"
    ensures var shown := Classify(username + "|" + (before + "|" + after) + "|" + timestamp, me);
      && shown.Line?
      && shown.text == before
      && shown.timestamp == after
  {
    var line := username + "|" + (before + "|" + after) + "|" + timestamp;
    assert line == Join([username, before, after + "|" + timestamp], "|") by {
      ThreeFields(username, before, after + "|" + timestamp);
    }
    SplitTwoFields(username, before, after + "|" + timestamp, '|');
    SplitFirstField(after, timestamp);
  }
}
