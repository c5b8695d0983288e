/** The presence registry and live routing of the socket server: the
    process-wide `onlineUsers` map from a user id to the id of the socket the
    user registered on, and the three socket handlers that read and change it
    (`register`, `send_message`, `disconnect`).

    Every handler is a pure step from one server state to the next. What a
    handler emits is appended to an event log; delivery itself is not
    modelled. */
module Presence {
  import opened JsValue
  import opened Seqs

  /** The user id a client sends with `register` or names as `receiver`.
      The value is opaque to the server; `None` is an `undefined` id, which a
      JavaScript `Map` stores and looks up like any other key. */
  type UserKey = Option<string>

  /** A socket.io connection id: never the empty string. */
  type SocketId = s: string | s != "" witness "socket"

  datatype Entry = Entry(user: UserKey, socket: SocketId)

  /** The `onlineUsers` map as its entries in iteration order. A JavaScript
      `Map` iterates in insertion order, and overwriting the value of an
      existing key keeps that key's position. */
  type Registry = seq<Entry>

  /** A `Map` holds each key once. */
  predicate Wf(reg: Registry) {
    forall i, j :: 0 <= i < j < |reg| ==> reg[i].user != reg[j].user
  }

  function Users(reg: Registry): set<UserKey> {
    if |reg| == 0 then {} else {reg[0].user} + Users(reg[1..])
  }

  lemma {:induction false} UsersIndex(reg: Registry, u: UserKey)
    ensures u in Users(reg) <==> exists i :: 0 <= i < |reg| && reg[i].user == u
  {
    if |reg| > 0 {
      UsersIndex(reg[1..], u);
      if u in Users(reg[1..]) {
        var i :| 0 <= i < |reg[1..]| && reg[1..][i].user == u;
        assert reg[i + 1].user == u;
      }
      if i :| 0 <= i < |reg| && reg[i].user == u {
        if i > 0 { assert reg[1..][i - 1].user == u; }
      }
    }
  }

  /** A registry with a new head entry holds each key once exactly when its
      tail does and the new key is not in the tail. */
  lemma WfCons(e: Entry, reg: Registry)
    ensures Wf([e] + reg) <==> Wf(reg) && e.user !in Users(reg)
  {
    var r := [e] + reg;
    assert r[1..] == reg;
    UsersIndex(reg, e.user);
    if Wf(r) {
      forall i, j | 0 <= i < j < |reg| ensures reg[i].user != reg[j].user {
        assert r[i + 1] == reg[i] && r[j + 1] == reg[j];
      }
      forall i | 0 <= i < |reg| ensures reg[i].user != e.user {
        assert r[i + 1] == reg[i] && r[0] == e;
      }
    }
    if Wf(reg) && e.user !in Users(reg) {
      forall i, j | 0 <= i < j < |r| ensures r[i].user != r[j].user {
        if i > 0 { assert r[i] == reg[i - 1] && r[j] == reg[j - 1]; }
        else { assert r[j] == reg[j - 1]; }
      }
    }
  }

  /** No entry is bound to socket `s`. */
  predicate NoSocket(reg: Registry, s: SocketId) {
    forall i :: 0 <= i < |reg| ==> reg[i].socket != s
  }

  /** Entry `k` is the first entry, in iteration order, bound to socket `s`. */
  predicate FirstWithSocket(reg: Registry, s: SocketId, k: int) {
    0 <= k < |reg| && reg[k].socket == s && forall i :: 0 <= i < k ==> reg[i].socket != s
  }

  /** A message as a client passes it to `send_message`. */
  datatype MessageData = MessageData(
    sender: UserKey,
    receiver: UserKey,
    content: Option<string>,
    filePath: Option<string>)

  /** The payload of a `receive_message` event: the client's fields passed
      through, stamped with the server's clock. */
  datatype LiveMessage = LiveMessage(
    sender: UserKey,
    receiver: UserKey,
    content: Option<string>,
    filePath: Option<string>,
    timestamp: nat)

  datatype Event =
    | UserOnline(user: UserKey)                          // io.emit to every socket
    | UserOffline(user: UserKey)                         // io.emit to every socket
    | ReceiveMessage(to: SocketId, message: LiveMessage)  // io.to(socket).emit

  datatype Server = Server(online: Registry, log: seq<Event>)

  // ---------------------------------------------------------------------------
  // Map operations

  /** `onlineUsers.get(u)`. */
  function Lookup(reg: Registry, u: UserKey): (r: Option<SocketId>)
    ensures r.None? <==> u !in Users(reg)
    ensures r.Some? ==> Entry(u, r.value) in reg
  {
    if |reg| == 0 then None
    else if reg[0].user == u then Some(reg[0].socket)
    else Lookup(reg[1..], u)
  }

  /** In a well-formed registry the entry of a user is the one `Lookup` finds. */
  lemma {:induction false} LookupEntry(reg: Registry, k: int)
    requires Wf(reg) && 0 <= k < |reg|
    ensures Lookup(reg, reg[k].user) == Some(reg[k].socket)
  {
    if k > 0 {
      assert reg[0].user != reg[k].user;
      assert reg[1..][k - 1] == reg[k];
      LookupEntry(reg[1..], k - 1);
    }
  }

  /** `onlineUsers.set(u, s)`. */
  function Put(reg: Registry, u: UserKey, s: SocketId): (r: Registry)
    requires Wf(reg)
    ensures Wf(r)
    ensures Users(r) == Users(reg) + {u}
    ensures Lookup(r, u) == Some(s)
    ensures forall v :: v != u ==> Lookup(r, v) == Lookup(reg, v)
  {
    if |reg| == 0 then
      WfCons(Entry(u, s), []);
      [Entry(u, s)]
    else
      WfCons(reg[0], reg[1..]);
      assert [reg[0]] + reg[1..] == reg;
      if reg[0].user == u then
        var r := [Entry(u, s)] + reg[1..];
        WfCons(Entry(u, s), reg[1..]);
        assert r[1..] == reg[1..];
        r
      else
        var tail := Put(reg[1..], u, s);
        var r := [reg[0]] + tail;
        WfCons(reg[0], tail);
        assert r[1..] == tail;
        r
  }

  /** `set` overwrites an existing key in place and appends a new key at the
      end of the iteration order. */
  lemma {:induction false} PutOrder(reg: Registry, u: UserKey, s: SocketId)
    requires Wf(reg)
    ensures u in Users(reg) ==>
              (|Put(reg, u, s)| == |reg| && forall i :: 0 <= i < |reg| ==> Put(reg, u, s)[i].user == reg[i].user)
    ensures u !in Users(reg) ==> Put(reg, u, s) == reg + [Entry(u, s)]
  {
    if |reg| > 0 && reg[0].user != u {
      WfCons(reg[0], reg[1..]);
      assert [reg[0]] + reg[1..] == reg;
      PutOrder(reg[1..], u, s);
      var tail := Put(reg[1..], u, s);
      assert Put(reg, u, s) == [reg[0]] + tail;
      if u !in Users(reg) {
        assert [reg[0]] + (reg[1..] + [Entry(u, s)]) == reg + [Entry(u, s)];
      }
    }
  }

  /** The index the `disconnect` loop stops at: the first entry, in
      iteration order, bound to socket `s`. */
  function FirstIndex(reg: Registry, s: SocketId): (k: int)
    requires !NoSocket(reg, s)
    ensures FirstWithSocket(reg, s, k)
  {
    if reg[0].socket == s then 0
    else
      assert !NoSocket(reg[1..], s) by {
        var i :| 0 <= i < |reg| && reg[i].socket == s;
        assert reg[1..][i - 1] == reg[i];
      }
      1 + FirstIndex(reg[1..], s)
  }

  /** There is only one first entry. */
  lemma FirstUnique(reg: Registry, s: SocketId, k1: int, k2: int)
    requires FirstWithSocket(reg, s, k1) && FirstWithSocket(reg, s, k2)
    ensures k1 == k2
  {
  }

  /** Deleting an entry keeps a registry well formed. */
  lemma DeleteWf(reg: Registry, k: int)
    requires Wf(reg) && 0 <= k < |reg|
    ensures Wf(RemoveAt(reg, k))
  {
    var rest := RemoveAt(reg, k);
    forall i, j | 0 <= i < j < |rest| ensures rest[i].user != rest[j].user {
      assert rest[i] == reg[if i < k then i else i + 1];
      assert rest[j] == reg[if j < k then j else j + 1];
    }
  }

  /** Deleting entry `k` of a well-formed registry unbinds exactly that
      entry's user. */
  lemma DeleteLookup(reg: Registry, k: int, v: UserKey)
    requires Wf(reg) && 0 <= k < |reg|
    ensures Lookup(RemoveAt(reg, k), v) == if v == reg[k].user then None else Lookup(reg, v)
  {
    var rest := RemoveAt(reg, k);
    DeleteWf(reg, k);
    forall j | 0 <= j < |reg| && j != k ensures reg[j].user in Users(rest) {
      assert rest[if j < k then j else j - 1] == reg[j];
      UsersIndex(rest, reg[j].user);
    }
    UsersIndex(rest, v);
    UsersIndex(reg, v);
    if v in Users(rest) {
      var i :| 0 <= i < |rest| && rest[i].user == v;
      var j := if i < k then i else i + 1;
      assert rest[i] == reg[j];
      LookupEntry(rest, i);
      LookupEntry(reg, j);
    }
  }

  // ---------------------------------------------------------------------------
  // The server and its socket handlers

  /** The state at process start: nobody online, nothing emitted. */
  function Init(): (st: Server)
    ensures forall u :: Lookup(st.online, u).None?
    ensures st.log == []
  {
    Server([], [])
  }

  /** `socket.on('register', userId)` on socket `s`: bind the user to `s`,
      whatever the user was bound to before, and announce the user online. */
  function OnRegister(st: Server, u: UserKey, s: SocketId): (r: Server)
    requires Wf(st.online)
    ensures Wf(r.online)
    ensures Lookup(r.online, u) == Some(s)
    ensures forall v :: v != u ==> Lookup(r.online, v) == Lookup(st.online, v)
    ensures Users(r.online) == Users(st.online) + {u}
    ensures r.log == st.log + [UserOnline(u)]
  {
    Server(Put(st.online, u, s), st.log + [UserOnline(u)])
  }

  /** `socket.on('send_message', data)`: push `receive_message` to the
      receiver's socket when the receiver is registered; otherwise nothing.
      The registry is never changed. */
  function OnSendMessage(st: Server, data: MessageData, now: nat): (r: Server)
    ensures r.online == st.online
    ensures data.receiver !in Users(st.online) ==> r == st
    ensures data.receiver in Users(st.online) ==>
              exists e :: e in st.online && e.user == data.receiver &&
                r.log == st.log + [ReceiveMessage(e.socket, LiveMessage(data.sender, data.receiver, data.content, data.filePath, now))]
  {
    match Lookup(st.online, data.receiver)
    case None => st
    case Some(to) =>
      var msg := LiveMessage(data.sender, data.receiver, data.content, data.filePath, now);
      Server(st.online, st.log + [ReceiveMessage(to, msg)])
  }

  /** `socket.on('disconnect')` of socket `s`: delete the first entry bound
      to `s` and announce that entry's user offline; no entry, no effect. */
  function OnDisconnect(st: Server, s: SocketId): (r: Server)
    requires Wf(st.online)
    ensures Wf(r.online)
    ensures NoSocket(st.online, s) ==> r == st
    ensures forall k :: FirstWithSocket(st.online, s, k) ==>
              r.online == st.online[..k] + st.online[k + 1..] &&
              r.log == st.log + [UserOffline(st.online[k].user)]
    ensures |st.online| - 1 <= |r.online| <= |st.online|
  {
    if NoSocket(st.online, s) then st
    else
      var k := FirstIndex(st.online, s);
      DeleteWf(st.online, k);
      assert forall k' :: FirstWithSocket(st.online, s, k') ==> k' == k;
      Server(RemoveAt(st.online, k), st.log + [UserOffline(st.online[k].user)])
  }

  // ---------------------------------------------------------------------------
  // Runs of handlers

  /** A socket event the server handles. */
  datatype Action =
    | Register(user: UserKey, socket: SocketId)
    | SendMessage(data: MessageData, now: nat)
    | Disconnect(socket: SocketId)

  function Step(st: Server, a: Action): (r: Server)
    requires Wf(st.online)
    ensures Wf(r.online)
    ensures r.log == st.log || exists e :: r.log == st.log + [e]
  {
    match a
    case Register(u, s) => OnRegister(st, u, s)
    case SendMessage(d, now) => OnSendMessage(st, d, now)
    case Disconnect(s) => OnDisconnect(st, s)
  }

  /** The state after the server handles `actions` in order, one at a time. */
  function Run(st: Server, actions: seq<Action>): (r: Server)
    requires Wf(st.online)
    ensures Wf(r.online)
    ensures st.log <= r.log
    decreases |actions|
  {
    if |actions| == 0 then st else Run(Step(st, actions[0]), actions[1..])
  }

  /** Number of `user_online(u)` broadcasts in a log. */
  function OnlineCount(log: seq<Event>, u: UserKey): nat {
    if |log| == 0 then 0
    else OnlineCount(log[..|log| - 1], u) + (if log[|log| - 1] == UserOnline(u) then 1 else 0)
  }

  /** Number of `register(u)` events in a run. */
  function RegisterCount(actions: seq<Action>, u: UserKey): nat {
    if |actions| == 0 then 0
    else (if actions[0].Register? && actions[0].user == u then 1 else 0) + RegisterCount(actions[1..], u)
  }

  /** Each `register(u)` is announced by exactly one `user_online(u)`
      broadcast, and nothing else announces `u` online. */
  lemma {:induction false} OnlineAnnouncements(st: Server, actions: seq<Action>, u: UserKey)
    requires Wf(st.online)
    ensures OnlineCount(Run(st, actions).log, u) == OnlineCount(st.log, u) + RegisterCount(actions, u)
    decreases |actions|
  {
    if |actions| > 0 {
      var next := Step(st, actions[0]);
      OnlineAnnouncements(next, actions[1..], u);
      if next.log != st.log {
        var e :| next.log == st.log + [e];
        assert next.log[..|next.log| - 1] == st.log;
        assert actions[0].Register? ==> e == UserOnline(actions[0].user);
      }
    }
  }

  // ---------------------------------------------------------------------------
  // Consequences

  /** A message sent to a user who has just registered is pushed to the
      socket of that registration. */
  lemma SendReachesLatestSocket(st: Server, u: UserKey, s: SocketId, data: MessageData, now: nat)
    requires Wf(st.online) && data.receiver == u
    ensures OnSendMessage(OnRegister(st, u, s), data, now).log ==
              st.log + [UserOnline(u), ReceiveMessage(s, LiveMessage(data.sender, u, data.content, data.filePath, now))]
  {
    var mid := OnRegister(st, u, s);
    var e :| e in mid.online && e.user == u && OnSendMessage(mid, data, now).log ==
      mid.log + [ReceiveMessage(e.socket, LiveMessage(data.sender, data.receiver, data.content, data.filePath, now))];
    var i :| 0 <= i < |mid.online| && mid.online[i] == e;
    LookupEntry(mid.online, i);
  }

  /** User `u` registered on `s1` and then again on `s2`: closing the stale
      socket `s1` leaves `u` bound to `s2`, and when no other user was bound
      to `s1` the close has no effect at all. */
  lemma StaleSocketDisconnect(st: Server, u: UserKey, s1: SocketId, s2: SocketId)
    requires Wf(st.online) && s1 != s2
    ensures Lookup(OnDisconnect(OnRegister(OnRegister(st, u, s1), u, s2), s1).online, u) == Some(s2)
    ensures NoSocket(st.online, s1) ==>
              OnDisconnect(OnRegister(OnRegister(st, u, s1), u, s2), s1) == OnRegister(OnRegister(st, u, s1), u, s2)
  {
    var mid := OnRegister(OnRegister(st, u, s1), u, s2);
    forall i | 0 <= i < |mid.online| && mid.online[i].user == u ensures mid.online[i].socket == s2 {
      LookupEntry(mid.online, i);
    }
    if !NoSocket(mid.online, s1) {
      var k := FirstIndex(mid.online, s1);
      DeleteLookup(mid.online, k, u);
    }
    if NoSocket(st.online, s1) {
      forall i | 0 <= i < |mid.online| ensures mid.online[i].socket != s1 {
        var v := mid.online[i].user;
        LookupEntry(mid.online, i);
        if v != u {
          assert Lookup(mid.online, v) == Lookup(st.online, v);
        }
      }
    }
  }

  /** One socket that registers two users: its close unbinds only the first
      of them, and the second stays bound to the closed socket. */
  lemma SharedSocketLeavesStaleEntry(u1: UserKey, u2: UserKey, s: SocketId)
    requires u1 != u2
    ensures var st := OnDisconnect(OnRegister(OnRegister(Init(), u1, s), u2, s), s);
              Lookup(st.online, u1) == None && Lookup(st.online, u2) == Some(s) &&
              st.log == [UserOnline(u1), UserOnline(u2), UserOffline(u1)]
  {
    var one := OnRegister(Init(), u1, s);
    PutOrder([], u1, s);
    PutOrder(one.online, u2, s);
    var two := OnRegister(one, u2, s);
    assert two.online == [Entry(u1, s), Entry(u2, s)];
    assert FirstWithSocket(two.online, s, 0);
    DeleteLookup(two.online, 0, u1);
    DeleteLookup(two.online, 0, u2);
  }
}
