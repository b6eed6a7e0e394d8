/**
 * The chat dispatcher of `server.py`: `on_message` reads a
 * `USERNAME|MESSAGE|TIMESTAMP` string and registers, ignores or relays it;
 * `on_close` unregisters the socket and tells the others.
 *
 * The server's state is the registry, the log of every message it sent (to
 * which socket, in order) and the sockets it closed after a failed send.
 * Which sends fail is given per broadcast round as a `Failures` value; the
 * clock reading that `broadcast_system_message` takes is given as `now`.
 */
module Chat {
  import opened Wrappers
  import opened Text
  import opened Registry
  import Session
  import opened Bytes

  datatype State = State(table: seq<Client>, log: seq<Send>, closed: seq<Sock>)

  /**
   * The sockets whose sends fail in the broadcasts of one event: `first`
   * in its first round (the system notice, or the relayed line) and
   * `second` in the user list that follows a notice. The two rounds are
   * separate `sendall` loops, so a socket can take the first and fail the
   * second.
   */
  datatype Failures = Failures(first: set<Sock>, second: set<Sock>)

  /** No send fails. */
  const NoFailures := Failures({}, {})

  /** The registry of a reachable state holds each socket once, as a dict does. */
  predicate Valid(s: State)
  {
    Distinct(s.table)
  }

  /** The state after a broadcast: its registry, its sends logged, its failed sockets closed. */
  function After(s: State, o: Outcome): State
  {
    State(o.table, s.log + o.sent, s.closed + o.failed)
  }

  /** `broadcast_system_message(text)` followed by `broadcast_user_list()`. */
  function Announce(s: State, text: string, now: string, fails: Failures): (r: State)
    requires Valid(s)
    ensures Valid(r)
  {
    var s1 := Noticed(s, text, now, fails.first);
    BroadcastPrunesBroken(s1.table, UserListMessage(s1.table), fails.second);
    After(s1, BroadcastUserList(s1.table, fails.second))
  }

  /** `on_message(client_socket, message)`; a relayed line is one round, so only `fails.first` applies to it. */
  function OnMessage(s: State, sock: Sock, message: string, now: string, fails: Failures): (r: State)
    requires Valid(s)
    ensures Valid(r)
  {
    var parts := Split(message, "|");
    if |parts| < 3 then s
    else if parts[1] == "JOIN" then
      AddMap(s.table, sock, parts[0]);
      Announce(s.(table := Add(s.table, sock, parts[0])), parts[0] + " joined the chat", now, fails)
    else if parts[1] == "LEAVE" then s
    else
      BroadcastPrunesBroken(s.table, message, fails.first);
      After(s, Broadcast(s.table, message, None, fails.first))
  }

  /** `on_close(client_socket)`: an empty username is falsy in Python and announces nothing. */
  function OnClose(s: State, sock: Sock, now: string, fails: Failures): (r: State)
    requires Valid(s)
    ensures Valid(r)
  {
    var removal := Remove(s.table, sock);
    RemoveMap(s.table, sock);
    var s1 := s.(table := removal.table);
    if removal.name.Some? && removal.name.value != "" then
      Announce(s1, removal.name.value + " left the chat", now, fails)
    else s1
  }

  // ---------------------------------------------------------------------
  // what the dispatcher does, per registry entry and per recipient

  /** The state after the system notice's broadcast; the user list is taken from its registry. */
  function Noticed(s: State, text: string, now: string, broken: set<Sock>): (s1: State)
    requires Valid(s)
    ensures Valid(s1)
  {
    BroadcastPrunesBroken(s.table, SystemMessage(text, now), broken);
    After(s, BroadcastSystem(s.table, text, now, broken))
  }

  lemma {:induction false} ElementsConcat(a: seq<Sock>, b: seq<Sock>)
    ensures Elements(a + b) == Elements(a) + Elements(b)
  {
  }

  /** The notice unregisters and closes exactly the registered sockets that fail it. */
  lemma NoticedTable(s: State, text: string, now: string, broken: set<Sock>)
    requires Valid(s)
    ensures var s1 := Noticed(s, text, now, broken);
      && AsMap(s1.table) == AsMap(s.table) - broken
      && Elements(s1.closed) == Elements(s.closed) + AsMap(s.table).Keys * broken
  {
    var o1 := BroadcastSystem(s.table, text, now, broken);
    BroadcastPrunesBroken(s.table, SystemMessage(text, now), broken);
    ElementsConcat(s.closed, o1.failed);
  }

  /**
   * An announcement unregisters and closes exactly the registered sockets
   * that fail either of its two rounds.
   */
  lemma AnnounceTable(s: State, text: string, now: string, fails: Failures)
    requires Valid(s)
    ensures var r := Announce(s, text, now, fails);
      && AsMap(r.table) == AsMap(s.table) - fails.first - fails.second
      && Elements(r.closed) == Elements(s.closed) + AsMap(s.table).Keys * (fails.first + fails.second)
  {
    var s1 := Noticed(s, text, now, fails.first);
    NoticedTable(s, text, now, fails.first);
    var o2 := BroadcastUserList(s1.table, fails.second);
    BroadcastPrunesBroken(s1.table, UserListMessage(s1.table), fails.second);
    ElementsConcat(s1.closed, o2.failed);
    assert AsMap(s1.table).Keys == AsMap(s.table).Keys - fails.first;
  }

  /** The system notice reaches each registered socket that does not fail it, once. */
  lemma NoticedInbox(s: State, text: string, now: string, broken: set<Sock>, x: Sock)
    requires Valid(s)
    ensures Inbox(Noticed(s, text, now, broken).log, x)
         == Inbox(s.log, x) + (if x in AsMap(s.table) && x !in broken then [SystemMessage(text, now)] else [])
  {
    var o1 := BroadcastSystem(s.table, text, now, broken);
    InboxConcat(s.log, o1.sent, x);
    BroadcastInbox(s.table, SystemMessage(text, now), None, broken, x);
  }

  /** The user list reaches each registered socket that does not fail it, once. */
  lemma UserListInbox(s1: State, broken: set<Sock>, x: Sock)
    requires Valid(s1)
    ensures Inbox(s1.log + BroadcastUserList(s1.table, broken).sent, x)
         == Inbox(s1.log, x) + (if x in AsMap(s1.table) && x !in broken then [UserListMessage(s1.table)] else [])
  {
    InboxConcat(s1.log, BroadcastUserList(s1.table, broken).sent, x);
    BroadcastInbox(s1.table, UserListMessage(s1.table), None, broken, x);
  }

  /**
   * An announcement sends the notice once to every registered socket that
   * does not fail it, and then the user list of the registry that the
   * notice left, once to every socket of that registry that does not fail
   * the list; nothing else is sent.
   */
  lemma AnnounceInbox(s: State, text: string, now: string, fails: Failures, x: Sock)
    requires Valid(s)
    ensures var listed := Noticed(s, text, now, fails.first).table;
      Inbox(Announce(s, text, now, fails).log, x) == Inbox(s.log, x)
        + (if x in AsMap(s.table) && x !in fails.first then [SystemMessage(text, now)] else [])
        + (if x in AsMap(listed) && x !in fails.second then [UserListMessage(listed)] else [])
  {
    var s1 := Noticed(s, text, now, fails.first);
    NoticedInbox(s, text, now, fails.first, x);
    UserListInbox(s1, fails.second, x);
  }

  /** When no registered socket fails the list, the list sent names exactly the registry the announcement leaves. */
  lemma AnnounceListCurrent(s: State, text: string, now: string, fails: Failures)
    requires Valid(s)
    requires AsMap(s.table).Keys !! fails.second
    ensures Announce(s, text, now, fails).table == Noticed(s, text, now, fails.first).table
  {
    var s1 := Noticed(s, text, now, fails.first);
    NoticedTable(s, text, now, fails.first);
    assert AsMap(s1.table).Keys <= AsMap(s.table).Keys;
    BroadcastHealthy(s1.table, UserListMessage(s1.table), fails.second);
  }

  /**
   * A socket that takes the notice and then fails the user list gets the
   * notice alone and is unregistered, while the list the others get still
   * names it.
   */
  lemma ListFailsAfterNotice(s: State, text: string, now: string, fails: Failures, x: Sock)
    requires Valid(s)
    requires x in AsMap(s.table) && x !in fails.first && x in fails.second
    ensures var r := Announce(s, text, now, fails);
      && Inbox(r.log, x) == Inbox(s.log, x) + [SystemMessage(text, now)]
      && x !in AsMap(r.table)
      && AsMap(s.table)[x] in AllUsernames(Noticed(s, text, now, fails.first).table)
  {
    var s1 := Noticed(s, text, now, fails.first);
    AnnounceInbox(s, text, now, fails, x);
    AnnounceTable(s, text, now, fails);
    NoticedTable(s, text, now, fails.first);
    assert AsMap(s1.table)[x] == AsMap(s.table)[x];
    UsernamesOfMap(s1.table, AsMap(s.table)[x]);
  }

  /** A message with fewer than two `|` has fewer than three fields and changes nothing. */
  lemma ShortMessageIgnored(s: State, sock: Sock, message: string, now: string, fails: Failures)
    requires Valid(s)
    requires CountChar(message, '|') < 2
    ensures OnMessage(s, sock, message, now, fails) == s
  {
    SplitLength(message, '|');
  }

  /** `name|LEAVE|rest` changes nothing: leaving is handled when the connection closes. */
  lemma LeaveIgnored(s: State, sock: Sock, name: string, rest: string, now: string, fails: Failures)
    requires Valid(s)
    requires '|' !in name
    ensures OnMessage(s, sock, Join([name, "LEAVE", rest], "|"), now, fails) == s
  {
    SplitTwoFields(name, "LEAVE", rest, '|');
  }

  /** The registry a JOIN's user list is taken from: the joiner added, then the sockets failing the notice pruned. */
  function JoinListed(s: State, sock: Sock, name: string, now: string, fails: Failures): seq<Client>
    requires Valid(s)
  {
    AddMap(s.table, sock, name);
    Noticed(s.(table := Add(s.table, sock, name)), name + " joined the chat", now, fails.first).table
  }

  /** `name|JOIN|rest` maps the socket to `name`, and the sockets failing either round are then dropped. */
  lemma JoinTable(s: State, sock: Sock, name: string, rest: string, now: string, fails: Failures)
    requires Valid(s)
    requires '|' !in name
    ensures var r := OnMessage(s, sock, Join([name, "JOIN", rest], "|"), now, fails);
      AsMap(r.table) == AsMap(s.table)[sock := name] - fails.first - fails.second
  {
    SplitTwoFields(name, "JOIN", rest, '|');
    AddMap(s.table, sock, name);
    AnnounceTable(s.(table := Add(s.table, sock, name)), name + " joined the chat", now, fails);
  }

  /**
   * `name|JOIN|rest` maps the socket to `name`, whatever follows the second
   * `|`: every registered socket (the joiner included) that does not fail
   * the notice is told `name joined the chat`, and every one of those that
   * does not fail the list is then sent the user list, which names the
   * joiner unless the joiner failed the notice.
   */
  lemma JoinEffect(s: State, sock: Sock, name: string, rest: string, now: string, fails: Failures, x: Sock)
    requires Valid(s)
    requires '|' !in name
    ensures var r := OnMessage(s, sock, Join([name, "JOIN", rest], "|"), now, fails);
      var joined := AsMap(s.table)[sock := name];
      var listed := JoinListed(s, sock, name, now, fails);
      && AsMap(r.table) == joined - fails.first - fails.second
      && AsMap(listed) == joined - fails.first
      && Inbox(r.log, x) == Inbox(s.log, x)
           + (if x in joined && x !in fails.first then [SystemMessage(name + " joined the chat", now)] else [])
           + (if x in joined && x !in fails.first && x !in fails.second then [UserListMessage(listed)] else [])
  {
    SplitTwoFields(name, "JOIN", rest, '|');
    AddMap(s.table, sock, name);
    var s0 := s.(table := Add(s.table, sock, name));
    NoticedTable(s0, name + " joined the chat", now, fails.first);
    AnnounceTable(s0, name + " joined the chat", now, fails);
    AnnounceInbox(s0, name + " joined the chat", now, fails, x);
  }

  /** The user list a successful joiner receives names it. */
  lemma {:induction false} JoinerListed(t: seq<Client>, sock: Sock, name: string)
    requires sock in AsMap(t) && AsMap(t)[sock] == name
    ensures name in AllUsernames(t)
  {
    if t[0].sock != sock {
      JoinerListed(t[1..], sock, name);
      var i :| 0 <= i < |t| - 1 && AllUsernames(t[1..])[i] == name;
      assert AllUsernames(t)[i + 1] == name;
    } else {
      assert AllUsernames(t)[0] == name;
    }
  }

  /** A joiner that fails neither round is sent a user list that names it. */
  lemma JoinListsJoiner(s: State, sock: Sock, name: string, rest: string, now: string, fails: Failures)
    requires Valid(s)
    requires '|' !in name
    requires sock !in fails.first && sock !in fails.second
    ensures var r := OnMessage(s, sock, Join([name, "JOIN", rest], "|"), now, fails);
      var listed := JoinListed(s, sock, name, now, fails);
      && UserListMessage(listed) in Inbox(r.log, sock)
      && name in AllUsernames(listed)
  {
    var r := OnMessage(s, sock, Join([name, "JOIN", rest], "|"), now, fails);
    var listed := JoinListed(s, sock, name, now, fails);
    var joined := AsMap(s.table)[sock := name];
    JoinEffect(s, sock, name, rest, now, fails, sock);
    assert sock in joined && joined[sock] == name;
    var inbox := Inbox(s.log, sock) + [SystemMessage(name + " joined the chat", now)] + [UserListMessage(listed)];
    assert Inbox(r.log, sock) == inbox;
    assert inbox[|inbox| - 1] == UserListMessage(listed);
    assert sock in AsMap(listed) && AsMap(listed)[sock] == name;
    JoinerListed(listed, sock, name);
  }

  /** When no send fails, a second JOIN on a registered socket renames it without changing the client count. */
  lemma RejoinKeepsCount(s: State, sock: Sock, name: string, rest: string, now: string)
    requires Valid(s)
    requires '|' !in name
    requires sock in AsMap(s.table)
    ensures var r := OnMessage(s, sock, Join([name, "JOIN", rest], "|"), now, NoFailures);
      && Count(r.table) == Count(s.table)
      && GetUsername(r.table, sock) == Some(name)
  {
    var r := OnMessage(s, sock, Join([name, "JOIN", rest], "|"), now, NoFailures);
    var joined := AsMap(s.table)[sock := name];
    JoinTable(s, sock, name, rest, now, NoFailures);
    assert joined - NoFailures.first - NoFailures.second == joined;
    assert AsMap(r.table) == joined;
    assert AsMap(r.table).Keys == AsMap(s.table).Keys;
    CountMatches(r.table);
    CountMatches(s.table);
    GetUsernameMap(r.table, sock);
  }

  /**
   * Any other message of at least three fields is relayed unchanged, fields
   * beyond the third included, to every registered socket (the sender
   * included) whose send does not fail; those that fail are unregistered
   * and closed.
   */
  lemma RelayEffect(s: State, sock: Sock, message: string, now: string, fails: Failures, x: Sock)
    requires Valid(s)
    requires |Split(message, "|")| >= 3
    requires Split(message, "|")[1] != "JOIN" && Split(message, "|")[1] != "LEAVE"
    ensures var r := OnMessage(s, sock, message, now, fails);
      && AsMap(r.table) == AsMap(s.table) - fails.first
      && Elements(r.closed) == Elements(s.closed) + AsMap(s.table).Keys * fails.first
      && Inbox(r.log, x) == Inbox(s.log, x) + (if x in AsMap(s.table) && x !in fails.first then [message] else [])
  {
    var o := Broadcast(s.table, message, None, fails.first);
    BroadcastPrunesBroken(s.table, message, fails.first);
    ElementsConcat(s.closed, o.failed);
    InboxConcat(s.log, o.sent, x);
    BroadcastInbox(s.table, message, None, fails.first, x);
  }

  /** The registry a departure's user list is taken from: the socket removed, then the sockets failing the notice pruned. */
  function CloseListed(s: State, sock: Sock, name: string, now: string, fails: Failures): seq<Client>
    requires Valid(s)
  {
    RemoveMap(s.table, sock);
    Noticed(s.(table := Remove(s.table, sock).table), name + " left the chat", now, fails.first).table
  }

  /**
   * Closing unregisters the socket. When it had a non-empty name, every
   * other registered socket that does not fail the notice is told `name
   * left the chat`, and every one of those that does not fail the list is
   * then sent the user list; otherwise nothing is sent.
   */
  lemma CloseEffect(s: State, sock: Sock, now: string, fails: Failures, x: Sock)
    requires Valid(s)
    ensures var r := OnClose(s, sock, now, fails);
      var name := Get(AsMap(s.table), sock);
      var others := AsMap(s.table) - {sock};
      && sock !in AsMap(r.table)
      && (if name.Some? && name.value != "" then
            var listed := CloseListed(s, sock, name.value, now, fails);
            && AsMap(r.table) == others - fails.first - fails.second
            && AsMap(listed) == others - fails.first
            && Inbox(r.log, x) == Inbox(s.log, x)
                 + (if x in others && x !in fails.first
                    then [SystemMessage(name.value + " left the chat", now)] else [])
                 + (if x in others && x !in fails.first && x !in fails.second
                    then [UserListMessage(listed)] else [])
          else
            && AsMap(r.table) == others
            && r.log == s.log)
  {
    RemoveMap(s.table, sock);
    var removal := Remove(s.table, sock);
    var s1 := s.(table := removal.table);
    if removal.name.Some? && removal.name.value != "" {
      var text := removal.name.value + " left the chat";
      NoticedTable(s1, text, now, fails.first);
      AnnounceTable(s1, text, now, fails);
      AnnounceInbox(s1, text, now, fails, x);
    }
  }

  /** A socket that a failed send already unregistered gets no leave notice when it closes. */
  lemma PrunedCloseSilent(s: State, sock: Sock, now: string, fails: Failures)
    requires Valid(s)
    requires sock !in AsMap(s.table)
    ensures OnClose(s, sock, now, fails).log == s.log
    ensures OnClose(s, sock, now, fails).table == s.table
  {
    RemoveMap(s.table, sock);
  }

  // ---------------------------------------------------------------------
  // one connection, as the loop of `handle_websocket_connection` drives it

  /**
   * What one event of the connection loop does to the server's state; the
   * loop's own writes change nothing here. Once a failed broadcast has
   * closed the connection's own socket, the loop's next `recv` raises,
   * `decode_frame` returns no frame and the loop goes straight to
   * `on_close`: the texts the peer sent after that point are never read.
   */
  function Step(s: State, sock: Sock, e: Session.Event, now: string, fails: Failures): (r: State)
    requires Valid(s)
    ensures Valid(r)
  {
    match e
    case Delivered(text) => if sock in Elements(s.closed) then s else OnMessage(s, sock, text, now, fails)
    case Closed => OnClose(s, sock, now, fails)
    case _ => s
  }

  /** The failures of the i-th event's broadcasts; the sends of an event past the end of `fails` all succeed. */
  function FailuresAt(fails: seq<Failures>, i: nat): Failures
  {
    if i < |fails| then fails[i] else NoFailures
  }

  /** The failures of the events after the first. */
  function Later(fails: seq<Failures>): seq<Failures>
  {
    if |fails| == 0 then [] else fails[1..]
  }

  /** The i-th event after the first has the failures of event i + 1. */
  lemma LaterAt(fails: seq<Failures>, i: nat)
    ensures FailuresAt(Later(fails), i) == FailuresAt(fails, i + 1)
  {
  }

  /** The events of one connection applied in order, the i-th with the failures `FailuresAt(fails, i)`. */
  function Serve(s: State, sock: Sock, events: seq<Session.Event>, now: string, fails: seq<Failures>): (r: State)
    requires Valid(s)
    ensures Valid(r)
    decreases |events|
  {
    if |events| == 0 then s
    else Serve(Step(s, sock, events[0], now, FailuresAt(fails, 0)), sock, events[1..], now, Later(fails))
  }

  /** Applying one more event at the end is one more step. */
  lemma {:induction false} ServeSnoc(s: State, sock: Sock, events: seq<Session.Event>, e: Session.Event,
                                     now: string, fails: seq<Failures>)
    requires Valid(s)
    ensures Serve(s, sock, events + [e], now, fails)
         == Step(Serve(s, sock, events, now, fails), sock, e, now, FailuresAt(fails, |events|))
    decreases |events|
  {
    if |events| == 0 {
      assert (events + [e])[1..] == [];
    } else {
      assert (events + [e])[0] == events[0];
      assert (events + [e])[1..] == events[1..] + [e];
      LaterAt(fails, |events| - 1);
      ServeSnoc(Step(s, sock, events[0], now, FailuresAt(fails, 0)), sock, events[1..], e, now, Later(fails));
    }
  }

  /** A connection whose loop ends by calling `on_close` leaves its socket unregistered, whatever it sent before. */
  lemma ServeUnregisters(s: State, sock: Sock, events: seq<Session.Event>, now: string, fails: seq<Failures>)
    requires Valid(s)
    requires Session.ClosesOnceAtEnd(events)
    ensures sock !in AsMap(Serve(s, sock, events, now, fails).table)
  {
    var init := events[..|events| - 1];
    assert events == init + [Session.Closed];
    ServeSnoc(s, sock, init, Session.Closed, now, fails);
    CloseEffect(Serve(s, sock, init, now, fails), sock, now, FailuresAt(fails, |init|), sock);
  }

  /** Serving a non-empty trace is one step on its first event, then the rest. */
  lemma ServeCons(s: State, sock: Sock, events: seq<Session.Event>, now: string, fails: seq<Failures>)
    requires Valid(s)
    requires |events| > 0
    ensures Serve(s, sock, events, now, fails)
         == Serve(Step(s, sock, events[0], now, FailuresAt(fails, 0)), sock, events[1..], now, Later(fails))
  {
  }

  /** With its own socket closed, a connection's events other than the close change nothing. */
  lemma StepAfterOwnClose(s: State, sock: Sock, e: Session.Event, now: string, f: Failures)
    requires Valid(s)
    requires sock in Elements(s.closed)
    requires e != Session.Closed
    ensures Step(s, sock, e, now, f) == s
  {
  }

  /**
   * Once the connection's own socket has been closed, the rest of the
   * connection is its `on_close` alone: no later text is read.
   */
  lemma {:induction false} ServeAfterOwnClose(s: State, sock: Sock, events: seq<Session.Event>, now: string,
                                              fails: seq<Failures>)
    requires Valid(s)
    requires sock in Elements(s.closed)
    requires Session.ClosesOnceAtEnd(events)
    ensures Serve(s, sock, events, now, fails) == OnClose(s, sock, now, FailuresAt(fails, |events| - 1))
    decreases |events|
  {
    ServeCons(s, sock, events, now, fails);
    if |events| == 1 {
      assert events[0] == Session.Closed;
      var closed := OnClose(s, sock, now, FailuresAt(fails, 0));
      assert events[1..] == [];
      assert Serve(closed, sock, [], now, Later(fails)) == closed;
    } else {
      var rest := events[1..];
      assert events[0] in events[..|events| - 1];
      StepAfterOwnClose(s, sock, events[0], now, FailuresAt(fails, 0));
      assert rest[..|rest| - 1] == events[..|events| - 1][1..];
      ServeAfterOwnClose(s, sock, rest, now, Later(fails));
      LaterAt(fails, |rest| - 1);
    }
  }

  /** A JOIN that fails on the joiner's own socket, in either round, leaves it closed and unregistered. */
  lemma JoinOnBrokenSocket(s: State, sock: Sock, name: string, rest: string, now: string, fails: Failures)
    requires Valid(s)
    requires '|' !in name
    requires sock in fails.first || sock in fails.second
    ensures var s1 := OnMessage(s, sock, Join([name, "JOIN", rest], "|"), now, fails);
      sock in Elements(s1.closed) && sock !in AsMap(s1.table)
  {
    SplitTwoFields(name, "JOIN", rest, '|');
    AddMap(s.table, sock, name);
    var s0 := s.(table := Add(s.table, sock, name));
    AnnounceTable(s0, name + " joined the chat", now, fails);
  }

  /**
   * A JOIN that fails on the joiner's own socket unregisters and closes it,
   * and nothing the connection does afterwards reaches anyone: its later
   * texts are never read and its close announces nothing.
   */
  lemma JoinOnBrokenSocketEnds(s: State, sock: Sock, name: string, rest: string, more: seq<Session.Event>,
                               now: string, fails: seq<Failures>)
    requires Valid(s)
    requires '|' !in name
    requires sock in FailuresAt(fails, 0).first || sock in FailuresAt(fails, 0).second
    requires sock !in Elements(s.closed)
    requires Session.ClosesOnceAtEnd(more)
    ensures var s1 := OnMessage(s, sock, Join([name, "JOIN", rest], "|"), now, FailuresAt(fails, 0));
      var r := Serve(s, sock, [Session.Delivered(Join([name, "JOIN", rest], "|"))] + more, now, fails);
      && sock !in AsMap(r.table)
      && r.table == s1.table
      && r.log == s1.log
  {
    var message := Join([name, "JOIN", rest], "|");
    var f := FailuresAt(fails, 0);
    var s1 := OnMessage(s, sock, message, now, f);
    var events := [Session.Delivered(message)] + more;
    JoinOnBrokenSocket(s, sock, name, rest, now, f);
    assert events[0] == Session.Delivered(message) && events[1..] == more;
    assert Step(s, sock, events[0], now, f) == s1;
    assert Serve(s, sock, events, now, fails) == Serve(s1, sock, more, now, Later(fails));
    ServeAfterOwnClose(s1, sock, more, now, Later(fails));
    PrunedCloseSilent(s1, sock, now, FailuresAt(Later(fails), |more| - 1));
  }

  /**
   * A whole connection: when the handshake fails (or its response cannot be
   * written) the registry and the send log are untouched, since `on_close`
   * is never called; otherwise the socket ends up unregistered.
   */
  lemma ConnectionEnds(s: State, sock: Sock, headers: map<string, string>, input: seq<byte>,
                       sha1Base64: string -> string, decodeText: seq<byte> -> Option<string>, sendable: nat,
                       now: string, fails: seq<Failures>)
    requires Valid(s)
    ensures var events := Session.RunSession(headers, input, sha1Base64, decodeText, sendable);
      && (Session.HandshakeResponse(headers, sha1Base64).None? ==> Serve(s, sock, events, now, fails) == s)
      && (events != [] ==> sock !in AsMap(Serve(s, sock, events, now, fails).table))
  {
    var events := Session.RunSession(headers, input, sha1Base64, decodeText, sendable);
    if events != [] {
      assert Serve(s, sock, events, now, fails) == Serve(s, sock, events[1..], now, Later(fails));
      ServeUnregisters(s, sock, events[1..], now, Later(fails));
    }
  }
}
