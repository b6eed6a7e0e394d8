/**
 * The registry of connected chat clients (`client_manager.py`): a dict from
 * socket to username, kept in insertion order as Python dicts are, the
 * broadcast that prunes the sockets whose send failed, and the two message
 * formats the server builds from the registry.
 *
 * The lock around the dict is left out: every operation here is one step of
 * a sequential history.
 */
module Registry {
  import opened Wrappers
  import opened Text

  /** A client socket, known only by its identity. */
  type Sock = nat

  /** One entry of `connected_clients`: the socket and `{"username": ...}`. */
  datatype Client = Client(sock: Sock, username: string)

  /** `list(connected_clients.keys())`. */
  function Socks(t: seq<Client>): (s: seq<Sock>)
    ensures |s| == |t|
  {
    if |t| == 0 then [] else [t[0].sock] + Socks(t[1..])
  }

  /** The dict's entries in insertion order hold each socket at most once. */
  predicate Distinct(t: seq<Client>)
  {
    |t| == 0 || (t[0].sock !in Socks(t[1..]) && Distinct(t[1..]))
  }

  /** The dict as a map from socket to username. */
  function AsMap(t: seq<Client>): (m: map<Sock, string>)
    ensures forall k :: k in m <==> k in Socks(t)
  {
    if |t| == 0 then map[] else AsMap(t[1..])[t[0].sock := t[0].username]
  }

  // ---------------------------------------------------------------------
  // add_client, remove_client, get_username, get_all_usernames, get_client_count

  /**
   * `add_client`: `connected_clients[sock] = {"username": name}`. A socket
   * already present keeps its place and gets the new name; a new socket is
   * appended.
   */
  function Add(t: seq<Client>, sock: Sock, name: string): (r: seq<Client>)
  {
    if |t| == 0 then [Client(sock, name)]
    else if t[0].sock == sock then [Client(sock, name)] + t[1..]
    else [t[0]] + Add(t[1..], sock, name)
  }

  lemma ConsRest(c: Client, t: seq<Client>)
    ensures ([c] + t)[0] == c && ([c] + t)[1..] == t
  {
  }

  /** Adding keeps the sockets in order, appending a new one last. */
  lemma {:induction false} AddSocks(t: seq<Client>, sock: Sock, name: string)
    ensures Socks(Add(t, sock, name)) == if sock in Socks(t) then Socks(t) else Socks(t) + [sock]
  {
    if |t| == 0 {
      assert Socks([Client(sock, name)]) == [sock];
    } else if t[0].sock == sock {
      ConsRest(Client(sock, name), t[1..]);
    } else {
      var rest := t[1..];
      AddSocks(rest, sock, name);
      ConsRest(t[0], Add(rest, sock, name));
      assert Socks(t) == [t[0].sock] + Socks(rest);
      if sock !in Socks(rest) {
        assert Socks(t) + [sock] == [t[0].sock] + (Socks(rest) + [sock]);
      }
    }
  }

  /** Adding keeps the sockets distinct. */
  lemma {:induction false} AddDistinct(t: seq<Client>, sock: Sock, name: string)
    requires Distinct(t)
    ensures Distinct(Add(t, sock, name))
  {
    if |t| == 0 {
      assert Socks([Client(sock, name)][1..]) == [];
    } else if t[0].sock == sock {
      ConsRest(Client(sock, name), t[1..]);
    } else {
      var rest := t[1..];
      AddDistinct(rest, sock, name);
      AddSocks(rest, sock, name);
      ConsRest(t[0], Add(rest, sock, name));
    }
  }

  lemma UpdateSwap(m: map<Sock, string>, a: Sock, u: string, b: Sock, v: string)
    requires a != b
    ensures m[a := u][b := v] == m[b := v][a := u]
  {
  }

  /** Adding maps the socket to the new name and leaves every other entry as it was. */
  lemma {:induction false} AddAsMap(t: seq<Client>, sock: Sock, name: string)
    ensures AsMap(Add(t, sock, name)) == AsMap(t)[sock := name]
  {
    if |t| == 0 {
      assert AsMap([Client(sock, name)]) == AsMap([])[sock := name];
    } else if t[0].sock == sock {
      ConsRest(Client(sock, name), t[1..]);
      assert AsMap(t)[sock := name] == AsMap(t[1..])[sock := name];
    } else {
      var rest := t[1..];
      AddAsMap(rest, sock, name);
      ConsRest(t[0], Add(rest, sock, name));
      UpdateSwap(AsMap(rest), sock, name, t[0].sock, t[0].username);
    }
  }

  /**
   * Adding maps `sock` to `name` and leaves every other entry as it was; the
   * sockets keep their order, a new one goes last, and they stay distinct.
   */
  lemma AddMap(t: seq<Client>, sock: Sock, name: string)
    requires Distinct(t)
    ensures Distinct(Add(t, sock, name))
    ensures AsMap(Add(t, sock, name)) == AsMap(t)[sock := name]
    ensures Socks(Add(t, sock, name)) == if sock in Socks(t) then Socks(t) else Socks(t) + [sock]
  {
    AddDistinct(t, sock, name);
    AddAsMap(t, sock, name);
    AddSocks(t, sock, name);
  }

  /** What `remove_client` leaves and returns. */
  datatype Removal = Removal(table: seq<Client>, name: Option<string>)

  /**
   * `remove_client`: deletes the entry of `sock` and returns its username,
   * or returns None when `sock` has no entry.
   */
  function Remove(t: seq<Client>, sock: Sock): (r: Removal)
    ensures r.name.None? ==> r.table == t
  {
    if |t| == 0 then Removal([], None)
    else if t[0].sock == sock then Removal(t[1..], Some(t[0].username))
    else
      var r := Remove(t[1..], sock);
      if r.name.None? then Removal(t, None) else Removal([t[0]] + r.table, r.name)
  }

  /** Removing returns the name stored for the socket, or None when it has none. */
  lemma {:induction false} RemoveName(t: seq<Client>, sock: Sock)
    requires Distinct(t)
    ensures Remove(t, sock).name == Get(AsMap(t), sock)
  {
    if |t| > 0 && t[0].sock != sock {
      RemoveName(t[1..], sock);
    }
  }

  /** Removing drops the socket from the key list and keeps the others in order. */
  lemma {:induction false} RemoveSocks(t: seq<Client>, sock: Sock)
    requires Distinct(t)
    ensures Socks(Remove(t, sock).table) == Except(Socks(t), sock)
  {
    if |t| > 0 {
      var rest := t[1..];
      assert Socks(t) == [t[0].sock] + Socks(rest);
      if t[0].sock == sock {
        ExceptNone(Socks(rest), sock);
        assert Except(Socks(t), sock) == Except(Socks(rest), sock);
      } else {
        RemoveSocks(rest, sock);
        var r := Remove(rest, sock);
        if r.name.Some? {
          ConsRest(t[0], r.table);
        } else {
          ExceptNone(Socks(t), sock);
        }
      }
    }
  }

  /** Removing keeps the sockets distinct. */
  lemma {:induction false} RemoveDistinct(t: seq<Client>, sock: Sock)
    requires Distinct(t)
    ensures Distinct(Remove(t, sock).table)
  {
    if |t| > 0 && t[0].sock != sock {
      var r := Remove(t[1..], sock);
      if r.name.Some? {
        RemoveDistinct(t[1..], sock);
        RemoveSocks(t[1..], sock);
        ConsRest(t[0], r.table);
      }
    }
  }

  /** Removing deletes exactly the socket's entry from the map. */
  lemma {:induction false} RemoveAsMap(t: seq<Client>, sock: Sock)
    requires Distinct(t)
    ensures AsMap(Remove(t, sock).table) == AsMap(t) - {sock}
  {
    if |t| > 0 {
      var rest := t[1..];
      if t[0].sock == sock {
        UpdateMinus(AsMap(rest), sock, t[0].username);
      } else {
        RemoveAsMap(rest, sock);
        var r := Remove(rest, sock);
        if r.name.Some? {
          ConsRest(t[0], r.table);
          UpdateMinusOther(AsMap(rest), t[0].sock, t[0].username, sock);
        } else {
          RemoveName(rest, sock);
          assert sock !in AsMap(t);
        }
      }
    }
  }

  lemma UpdateMinus(m: map<Sock, string>, k: Sock, v: string)
    requires k !in m
    ensures m[k := v] - {k} == m
  {
  }

  lemma UpdateMinusOther(m: map<Sock, string>, k: Sock, v: string, x: Sock)
    requires k != x
    ensures m[k := v] - {x} == (m - {x})[k := v]
  {
  }

  /**
   * Removing returns the stored name exactly when the socket has one;
   * afterwards the map is the old one without that socket, and the other
   * sockets keep their order.
   */
  lemma RemoveMap(t: seq<Client>, sock: Sock)
    requires Distinct(t)
    ensures Distinct(Remove(t, sock).table)
    ensures Remove(t, sock).name == Get(AsMap(t), sock)
    ensures AsMap(Remove(t, sock).table) == AsMap(t) - {sock}
    ensures Socks(Remove(t, sock).table) == Except(Socks(t), sock)
  {
    RemoveDistinct(t, sock);
    RemoveName(t, sock);
    RemoveAsMap(t, sock);
    RemoveSocks(t, sock);
  }

  /** Filtering out a socket that is not there changes nothing. */
  lemma {:induction false} ExceptNone(socks: seq<Sock>, sock: Sock)
    requires sock !in socks
    ensures Except(socks, sock) == socks
  {
    if |socks| > 0 {
      assert sock !in socks[1..];
      ExceptNone(socks[1..], sock);
      assert socks == [socks[0]] + socks[1..];
    }
  }

  /** A second removal of the same socket finds nothing and returns None. */
  lemma RemoveTwice(t: seq<Client>, sock: Sock)
    requires Distinct(t)
    ensures Remove(Remove(t, sock).table, sock).name.None?
  {
    RemoveMap(t, sock);
    RemoveMap(Remove(t, sock).table, sock);
  }

  /** `get_username`: the stored name, or None. */
  function GetUsername(t: seq<Client>, sock: Sock): (r: Option<string>)
  {
    if |t| == 0 then None
    else if t[0].sock == sock then Some(t[0].username)
    else GetUsername(t[1..], sock)
  }

  /** Looking a socket up agrees with the map: the name it was last given, or None when it has none. */
  lemma {:induction false} GetUsernameMap(t: seq<Client>, sock: Sock)
    requires Distinct(t)
    ensures GetUsername(t, sock) == Get(AsMap(t), sock)
  {
    if |t| > 0 && t[0].sock != sock {
      GetUsernameMap(t[1..], sock);
    }
  }

  /** `get_all_usernames`: the usernames in insertion order. */
  function AllUsernames(t: seq<Client>): (names: seq<string>)
    ensures |names| == |t|
  {
    seq(|t|, i requires 0 <= i < |t| => t[i].username)
  }

  /** A name is listed exactly when some registered socket has it. */
  lemma {:induction false} UsernamesOfMap(t: seq<Client>, n: string)
    requires Distinct(t)
    ensures n in AllUsernames(t) <==> n in AsMap(t).Values
  {
    if |t| > 0 {
      var c := t[0];
      var rest := t[1..];
      UsernamesOfMap(rest, n);
      assert AllUsernames(t) == [c.username] + AllUsernames(rest);
      var m := AsMap(rest);
      assert c.sock !in m;
      assert AsMap(t) == m[c.sock := c.username];
      assert AsMap(t)[c.sock] == c.username;
      if n in m.Values {
        var k :| k in m && m[k] == n;
        assert AsMap(t)[k] == n;
      }
      if n in AsMap(t).Values {
        var k :| k in AsMap(t) && AsMap(t)[k] == n;
        if k != c.sock {
          assert k in m && m[k] == n;
        }
      }
    }
  }

  /** `get_client_count`: `len(connected_clients)`. */
  function Count(t: seq<Client>): nat
  {
    |t|
  }

  /** The count is the number of sockets in the map and the length of the username list. */
  lemma {:induction false} CountMatches(t: seq<Client>)
    requires Distinct(t)
    ensures Count(t) == |AsMap(t)| == |AllUsernames(t)|
  {
    if |t| > 0 {
      CountMatches(t[1..]);
      assert t[0].sock !in AsMap(t[1..]);
    }
  }

  // ---------------------------------------------------------------------
  // broadcast

  /** One message written to one socket. */
  datatype Send = Send(sock: Sock, message: string)

  /** What a broadcast leaves: the registry after pruning, the sends that went through, and the sockets that failed. */
  datatype Outcome = Outcome(table: seq<Client>, sent: seq<Send>, failed: seq<Sock>)

  /** No socket twice. */
  predicate Unique(s: seq<Sock>)
  {
    |s| == 0 || (s[0] !in s[1..] && Unique(s[1..]))
  }

  /** The sockets of `socks` other than `x`, in order. */
  function Except(socks: seq<Sock>, x: Sock): (r: seq<Sock>)
    ensures forall s :: s in r <==> s in socks && s != x
  {
    if |socks| == 0 then []
    else
      assert socks == [socks[0]] + socks[1..];
      (if socks[0] == x then [] else [socks[0]]) + Except(socks[1..], x)
  }

  /** The sockets of `socks` that are in `broken` (when `inside`) or not in it (otherwise), in order. */
  function Keep(socks: seq<Sock>, broken: set<Sock>, inside: bool): (r: seq<Sock>)
    ensures forall s :: s in r <==> s in socks && (s in broken <==> inside)
  {
    if |socks| == 0 then []
    else
      assert socks == [socks[0]] + socks[1..];
      (if (socks[0] in broken) == inside then [socks[0]] else []) + Keep(socks[1..], broken, inside)
  }

  /** The elements of `s` as a set. */
  function Elements(s: seq<Sock>): (r: set<Sock>)
    ensures forall x :: x in r <==> x in s
  {
    if |s| == 0 then {}
    else
      assert s == [s[0]] + s[1..];
      {s[0]} + Elements(s[1..])
  }

  lemma ConsSock(x: Sock, s: seq<Sock>)
    ensures ([x] + s)[0] == x && ([x] + s)[1..] == s
  {
  }

  /** Dropping a socket keeps the others distinct. */
  lemma {:induction false} ExceptUnique(socks: seq<Sock>, x: Sock)
    requires Unique(socks)
    ensures Unique(Except(socks, x))
  {
    if |socks| > 0 {
      ExceptUnique(socks[1..], x);
      if socks[0] != x {
        ConsSock(socks[0], Except(socks[1..], x));
      } else {
        assert Except(socks, x) == Except(socks[1..], x);
      }
    }
  }

  /** Splitting by brokenness keeps sockets distinct. */
  lemma {:induction false} KeepUnique(socks: seq<Sock>, broken: set<Sock>, inside: bool)
    requires Unique(socks)
    ensures Unique(Keep(socks, broken, inside))
  {
    if |socks| > 0 {
      KeepUnique(socks[1..], broken, inside);
      if (socks[0] in broken) == inside {
        ConsSock(socks[0], Keep(socks[1..], broken, inside));
      } else {
        assert Keep(socks, broken, inside) == Keep(socks[1..], broken, inside);
      }
    }
  }

  /** The sockets of a registry are distinct. */
  lemma {:induction false} SocksUnique(t: seq<Client>)
    requires Distinct(t)
    ensures Unique(Socks(t))
  {
    if |t| > 0 {
      SocksUnique(t[1..]);
      ConsSock(t[0].sock, Socks(t[1..]));
    }
  }

  /** The sockets `broadcast` tries, in the order of the snapshot: every one but `exclude`. */
  function Attempts(t: seq<Client>, exclude: Option<Sock>): (r: seq<Sock>)
    ensures forall s :: s in r <==> s in Socks(t) && Some(s) != exclude
  {
    match exclude
    case None => Socks(t)
    case Some(x) => Except(Socks(t), x)
  }

  /** Removes the sockets of `failed` one after another, as the clean-up loop of `broadcast` does. */
  function Prune(t: seq<Client>, failed: seq<Sock>): seq<Client>
    decreases |failed|
  {
    if |failed| == 0 then t else Prune(Remove(t, failed[0]).table, failed[1..])
  }

  /** Pruning keeps the sockets distinct. */
  lemma {:induction false} PruneDistinct(t: seq<Client>, failed: seq<Sock>)
    requires Distinct(t)
    ensures Distinct(Prune(t, failed))
    decreases |failed|
  {
    if |failed| > 0 {
      RemoveDistinct(t, failed[0]);
      PruneDistinct(Remove(t, failed[0]).table, failed[1..]);
    }
  }

  lemma MinusTwice(m: map<Sock, string>, a: set<Sock>, b: set<Sock>)
    ensures (m - a) - b == m - (a + b)
  {
  }

  /** Pruning removes exactly the failed sockets from the map. */
  lemma {:induction false} PruneMap(t: seq<Client>, failed: seq<Sock>)
    requires Distinct(t)
    ensures AsMap(Prune(t, failed)) == AsMap(t) - Elements(failed)
    decreases |failed|
  {
    if |failed| > 0 {
      var r := Remove(t, failed[0]).table;
      RemoveDistinct(t, failed[0]);
      RemoveAsMap(t, failed[0]);
      PruneMap(r, failed[1..]);
      assert Elements(failed) == {failed[0]} + Elements(failed[1..]);
      MinusTwice(AsMap(t), {failed[0]}, Elements(failed[1..]));
    } else {
      assert Elements(failed) == {};
    }
  }

  /** The same message to every socket of `socks`. */
  function SendAll(socks: seq<Sock>, message: string): (r: seq<Send>)
    ensures |r| == |socks|
    ensures forall i :: 0 <= i < |socks| ==> r[i] == Send(socks[i], message)
  {
    seq(|socks|, i requires 0 <= i < |socks| => Send(socks[i], message))
  }

  /**
   * `broadcast(message, exclude_socket)`: tries every socket of the snapshot
   * but `exclude`, in order; a send to a socket in `broken` raises, is
   * caught, and the socket is remembered; the loop goes on. Afterwards every
   * remembered socket is removed (and closed).
   */
  function Broadcast(t: seq<Client>, message: string, exclude: Option<Sock>, broken: set<Sock>): (o: Outcome)
  {
    var attempts := Attempts(t, exclude);
    var failed := Keep(attempts, broken, true);
    Outcome(Prune(t, failed), SendAll(Keep(attempts, broken, false), message), failed)
  }

  lemma SendAllHas(socks: seq<Sock>, message: string, s: Sock)
    ensures Send(s, message) in SendAll(socks, message) <==> s in socks
  {
    var sent := SendAll(socks, message);
    if Send(s, message) in sent {
      var i :| 0 <= i < |sent| && sent[i] == Send(s, message);
      assert socks[i] == s;
    }
    if s in socks {
      var i :| 0 <= i < |socks| && socks[i] == s;
      assert sent[i] == Send(s, message);
    }
  }

  /**
   * `broadcast` tries each socket of the snapshot except `exclude` exactly
   * once: the message reaches each such socket that is not broken, and no
   * other; the broken ones are exactly the failures, so one failure does not
   * stop the sends after it; and the registry afterwards is the old one
   * without exactly the failed sockets.
   */
  lemma BroadcastOutcome(t: seq<Client>, message: string, exclude: Option<Sock>, broken: set<Sock>)
    requires Distinct(t)
    ensures var o := Broadcast(t, message, exclude, broken);
      && Unique(Attempts(t, exclude))
      && (forall s :: s in Attempts(t, exclude) <==> s in AsMap(t) && Some(s) != exclude)
      && (forall s :: Send(s, message) in o.sent <==> s in AsMap(t) && Some(s) != exclude && s !in broken)
      && (forall d :: d in o.sent ==> d.message == message)
      && (forall s :: s in o.failed <==> s in AsMap(t) && Some(s) != exclude && s in broken)
      && Distinct(o.table)
      && AsMap(o.table) == AsMap(t) - Elements(o.failed)
  {
    var attempts := Attempts(t, exclude);
    SocksUnique(t);
    if exclude.Some? {
      ExceptUnique(Socks(t), exclude.value);
    }
    var failed := Keep(attempts, broken, true);
    PruneDistinct(t, failed);
    PruneMap(t, failed);
    var ok := Keep(attempts, broken, false);
    forall s ensures Send(s, message) in SendAll(ok, message) <==> s in ok {
      SendAllHas(ok, message, s);
    }
  }

  /** The messages a log of sends delivers to socket `x`, in order. */
  function Inbox(log: seq<Send>, x: Sock): (r: seq<string>)
    ensures |r| <= |log|
  {
    if |log| == 0 then []
    else (if log[0].sock == x then [log[0].message] else []) + Inbox(log[1..], x)
  }

  /** A socket's inbox over two logs in turn is its inbox over the first, then over the second. */
  lemma {:induction false} InboxConcat(a: seq<Send>, b: seq<Send>, x: Sock)
    ensures Inbox(a + b, x) == Inbox(a, x) + Inbox(b, x)
  {
    if |a| > 0 {
      assert (a + b)[0] == a[0];
      assert (a + b)[1..] == a[1..] + b;
      InboxConcat(a[1..], b, x);
    } else {
      assert a + b == b;
    }
  }

  /** Sending one message to distinct sockets gives each of them that message once, and others nothing. */
  lemma {:induction false} InboxSendAll(socks: seq<Sock>, message: string, x: Sock)
    requires Unique(socks)
    ensures Inbox(SendAll(socks, message), x) == if x in socks then [message] else []
  {
    if |socks| > 0 {
      var sent := SendAll(socks, message);
      assert sent[0] == Send(socks[0], message);
      assert sent[1..] == SendAll(socks[1..], message);
      InboxSendAll(socks[1..], message, x);
      assert socks == [socks[0]] + socks[1..];
    }
  }

  /**
   * Per socket, `broadcast` delivers the message exactly once to each
   * registered socket other than `exclude` whose send does not fail, and
   * nothing to any other socket.
   */
  lemma BroadcastInbox(t: seq<Client>, message: string, exclude: Option<Sock>, broken: set<Sock>, x: Sock)
    requires Distinct(t)
    ensures Inbox(Broadcast(t, message, exclude, broken).sent, x)
      == if x in AsMap(t) && Some(x) != exclude && x !in broken then [message] else []
  {
    var attempts := Attempts(t, exclude);
    SocksUnique(t);
    if exclude.Some? {
      ExceptUnique(Socks(t), exclude.value);
    }
    KeepUnique(attempts, broken, false);
    InboxSendAll(Keep(attempts, broken, false), message, x);
  }

  /** With nothing excluded, the sockets a broadcast prunes are the registered ones in `broken`. */
  lemma FailedAreBroken(t: seq<Client>, broken: set<Sock>)
    ensures Elements(Keep(Socks(t), broken, true)) == AsMap(t).Keys * broken
  {
  }

  lemma MinusKeys(m: map<Sock, string>, b: set<Sock>)
    ensures m - (m.Keys * b) == m - b
  {
  }

  /** What a broadcast with nothing excluded prunes. */
  lemma BroadcastNoneParts(t: seq<Client>, message: string, broken: set<Sock>)
    ensures Broadcast(t, message, None, broken).failed == Keep(Socks(t), broken, true)
    ensures Broadcast(t, message, None, broken).table == Prune(t, Keep(Socks(t), broken, true))
  {
  }

  /**
   * After a broadcast with nothing excluded, the registry is the old one
   * without the broken sockets, and the sockets closed are exactly the
   * registered broken ones.
   */
  lemma BroadcastPrunesBroken(t: seq<Client>, message: string, broken: set<Sock>)
    requires Distinct(t)
    ensures var o := Broadcast(t, message, None, broken);
      && Distinct(o.table)
      && AsMap(o.table) == AsMap(t) - broken
      && Elements(o.failed) == AsMap(t).Keys * broken
  {
    var failed := Keep(Socks(t), broken, true);
    BroadcastNoneParts(t, message, broken);
    PruneDistinct(t, failed);
    PruneMap(t, failed);
    FailedAreBroken(t, broken);
    MinusKeys(AsMap(t), broken);
  }

  /** Keeping the broken sockets of a list that holds none keeps nothing. */
  lemma {:induction false} KeepNone(socks: seq<Sock>, broken: set<Sock>)
    requires Elements(socks) !! broken
    ensures Keep(socks, broken, true) == []
  {
    if |socks| > 0 {
      assert socks[0] in Elements(socks);
      assert Elements(socks[1..]) <= Elements(socks);
      KeepNone(socks[1..], broken);
    }
  }

  /** A broadcast to a registry holding no broken socket leaves it as it was. */
  lemma BroadcastHealthy(t: seq<Client>, message: string, broken: set<Sock>)
    requires AsMap(t).Keys !! broken
    ensures Broadcast(t, message, None, broken).table == t
    ensures Broadcast(t, message, None, broken).failed == []
  {
    BroadcastNoneParts(t, message, broken);
    KeepNone(Socks(t), broken);
  }

  // ---------------------------------------------------------------------
  // broadcast_system_message, broadcast_user_list

  /** `f"SYSTEM|{message}|{timestamp}"`. */
  function SystemMessage(message: string, timestamp: string): string
  {
    "SYSTEM|" + message + "|" + timestamp
  }

  /** `f"USERLIST|{count}|{user_list}"` with the usernames joined by commas. */
  function UserListMessage(t: seq<Client>): string
  {
    var names := AllUsernames(t);
    "USERLIST|" + Decimal(|names|) + "|" + Join(names, ",")
  }

  /** `broadcast_system_message`, with the `%H:%M:%S` clock reading given as `timestamp`. */
  function BroadcastSystem(t: seq<Client>, message: string, timestamp: string, broken: set<Sock>): Outcome
  {
    Broadcast(t, SystemMessage(message, timestamp), None, broken)
  }

  /** `broadcast_user_list`: the list is taken from the registry before the broadcast prunes it. */
  function BroadcastUserList(t: seq<Client>, broken: set<Sock>): Outcome
  {
    Broadcast(t, UserListMessage(t), None, broken)
  }

  /** An empty registry announces `USERLIST|0|`. */
  lemma EmptyUserList()
    ensures UserListMessage([]) == "USERLIST|0|"
  {
    assert Decimal(0) == "0";
  }
}
