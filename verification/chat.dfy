/** The chat controller: `sendMessage` stores a message between two known
    users and answers with its denormalised view; `getMessages` returns the
    conversation between the caller and another user, oldest first.

    The message collection is an append-only sequence. A message's id is its
    position in the store, standing for the fresh id the database assigns. */
module Chat {
  import opened JsValue
  import opened Directory

  type MessageId = nat

  datatype Message = Message(
    id: MessageId,
    sender: UserId,
    receiver: UserId,
    content: string,
    filePath: Option<string>,
    timestamp: nat)

  type MessageStore = seq<Message>

  /** Every message's id is its position: ids are unique and grow with insertion. */
  predicate StoreWf(store: MessageStore) {
    forall i :: 0 <= i < |store| ==> store[i].id == i
  }

  /** A user projected to the fields `populate('…', 'name email')` selects. */
  datatype Party = Party(id: UserId, name: Option<string>, email: Option<string>)

  /** The denormalised message the controller answers and broadcasts with. */
  datatype MessageView = MessageView(
    id: MessageId,
    content: string,
    filePath: Option<string>,
    timestamp: nat,
    sender: Party,
    receiver: Party)

  function PartyOf(u: User): (p: Party)
    ensures p.id == u.id && p.name == u.name && p.email == u.email
  {
    Party(u.id, u.name, u.email)
  }

  /** Both participants of `m` still exist, so `populate` finds them. */
  predicate Resolvable(users: seq<User>, m: Message) {
    HasId(users, m.sender) && HasId(users, m.receiver)
  }

  /** The formatted view of a message whose participants exist. */
  function ViewOf(users: seq<User>, m: Message): (v: MessageView)
    requires Resolvable(users, m)
    ensures v.id == m.id && v.content == m.content && v.filePath == m.filePath && v.timestamp == m.timestamp
    ensures v.sender.id == m.sender && v.receiver.id == m.receiver
    ensures exists u :: u in users && v.sender == PartyOf(u)
    ensures exists u :: u in users && v.receiver == PartyOf(u)
  {
    MessageView(m.id, m.content, m.filePath, m.timestamp,
      PartyOf(FindById(users, m.sender).value), PartyOf(FindById(users, m.receiver).value))
  }

  // ---------------------------------------------------------------------------
  // sendMessage

  datatype SendOutcome = SendOutcome(
    status: int,
    store: MessageStore,
    broadcast: seq<MessageView>,   // `new_message` emissions
    data: Option<MessageView>)     // the `data` field of the 201 answer

  /** `sendMessage` for the authenticated `senderId` and the route's
      `receiverId`, with the multipart `content` field and the stored path of
      the attached file, if any. `now` is the server clock; `ioAttached` says
      whether a socket server was registered on the app (`app.get('socketio')`).

      Unknown participants give 404 and store nothing. Otherwise the message
      is stored with `content || ''` and the file path or null; no check
      rejects an empty message, nor one a user sends to themself. The answer
      is 201 with the view, broadcast as `new_message`; without a socket
      server the broadcast throws after the message was stored and the answer
      is 500. */
  function SendMessage(users: seq<User>, store: MessageStore, senderId: UserId, receiverId: UserId,
                       content: Option<string>, filePath: Option<string>, now: nat, ioAttached: bool): (r: SendOutcome)
    requires StoreWf(store)
    ensures StoreWf(r.store)
    ensures r.status == 404 <==> !HasId(users, senderId) || !HasId(users, receiverId)
    ensures r.status == 404 ==> r.store == store && r.broadcast == [] && r.data == None
    ensures r.status != 404 ==>
              r.store == store + [Message(|store|, senderId, receiverId, OrEmpty(content), filePath, now)]
    ensures r.status == 201 <==> r.status != 404 && ioAttached
    ensures r.status == 500 <==> r.status != 404 && !ioAttached
    ensures r.status == 201 ==>
              (r.data.Some? && r.broadcast == [r.data.value] && r.data.value == ViewOf(users, r.store[|store|]))
    ensures r.status == 500 ==> r.broadcast == [] && r.data == None
  {
    var sender := FindById(users, senderId);
    var receiver := FindById(users, receiverId);
    if sender.None? || receiver.None? then
      SendOutcome(404, store, [], None)
    else
      var m := Message(|store|, senderId, receiverId, OrEmpty(content), filePath, now);
      var stored := store + [m];
      if !ioAttached then
        SendOutcome(500, stored, [], None)
      else
        var view := ViewOf(users, m);
        SendOutcome(201, stored, [view], Some(view))
  }

  /** The backend stores a message with no text and no file: only the chat
      page refuses to send one. */
  lemma EmptyMessageAccepted(users: seq<User>, store: MessageStore, a: UserId, b: UserId, now: nat)
    requires StoreWf(store) && HasId(users, a) && HasId(users, b)
    ensures var r := SendMessage(users, store, a, b, None, None, now, true);
              r.status == 201 && r.store[|store|].content == "" && r.store[|store|].filePath == None
  {
  }

  /** Nothing stops a user from messaging themself. */
  lemma SelfMessageAccepted(users: seq<User>, store: MessageStore, a: UserId, text: string, now: nat)
    requires StoreWf(store) && HasId(users, a)
    ensures var r := SendMessage(users, store, a, a, Some(text), None, now, true);
              r.status == 201 && r.data.value.sender == r.data.value.receiver
  {
  }

  // ---------------------------------------------------------------------------
  // getMessages

  /** `m` belongs to the conversation of the unordered pair {a, b}. */
  predicate Between(m: Message, a: UserId, b: UserId) {
    (m.sender == a && m.receiver == b) || (m.sender == b && m.receiver == a)
  }

  /** The query `{ $or: [{ sender: a, receiver: b }, { sender: b, receiver: a }] }`,
      in store order. */
  function Conversation(store: MessageStore, a: UserId, b: UserId): (r: seq<Message>)
    ensures forall m :: m in r <==> m in store && Between(m, a, b)
    ensures |r| <= |store|
  {
    if |store| == 0 then []
    else
      var last := store[|store| - 1];
      assert forall m :: m in store <==> m in store[..|store| - 1] || m == last by {
        assert store == store[..|store| - 1] + [last];
      }
      Conversation(store[..|store| - 1], a, b) + (if Between(last, a, b) then [last] else [])
  }

  /** The pair is unordered: the same messages in the same order either way. */
  lemma {:induction false} ConversationSymmetric(store: MessageStore, a: UserId, b: UserId)
    ensures Conversation(store, a, b) == Conversation(store, b, a)
  {
    if |store| > 0 {
      ConversationSymmetric(store[..|store| - 1], a, b);
    }
  }

  /** `a` comes strictly before `b` by timestamp, ties broken by id. */
  predicate Before(a: Message, b: Message) {
    a.timestamp < b.timestamp || (a.timestamp == b.timestamp && a.id < b.id)
  }

  /** Ascending by timestamp, and by id among equal timestamps. */
  predicate Ordered(ms: seq<Message>) {
    forall i, j :: 0 <= i < j < |ms| ==> Before(ms[i], ms[j])
  }

  predicate IdsAscending(ms: seq<Message>) {
    forall i, j :: 0 <= i < j < |ms| ==> ms[i].id < ms[j].id
  }

  lemma OrderedSnoc(front: seq<Message>, last: Message)
    requires Ordered(front) && forall x :: x in front ==> Before(x, last)
    ensures Ordered(front + [last])
  {
    var r := front + [last];
    forall i, j | 0 <= i < j < |r| ensures Before(r[i], r[j]) {
      assert r[i] == front[i];
      if j == |front| { assert front[i] in front; }
    }
  }

  lemma OrderedInit(init: seq<Message>, last: Message)
    requires Ordered(init + [last])
    ensures Ordered(init)
    ensures forall x :: x in init ==> Before(x, last)
  {
    var s := init + [last];
    forall i, j | 0 <= i < j < |init| ensures Before(init[i], init[j]) {
      assert s[i] == init[i] && s[j] == init[j];
    }
    forall x | x in init ensures Before(x, last) {
      var i :| 0 <= i < |init| && init[i] == x;
      assert s[i] == x && s[|init|] == last;
    }
  }

  /** Places `m` after every element that comes before it. */
  function Insert(sorted: seq<Message>, m: Message): (r: seq<Message>)
    requires Ordered(sorted) && forall x :: x in sorted ==> x.id < m.id
    ensures multiset(r) == multiset(sorted) + multiset{m}
    ensures Ordered(r)
    decreases |sorted|
  {
    if |sorted| == 0 then [m]
    else
      var last := sorted[|sorted| - 1];
      var init := sorted[..|sorted| - 1];
      assert sorted == init + [last];
      OrderedInit(init, last);
      if last.timestamp <= m.timestamp then
        assert Before(last, m);
        OrderedSnoc(sorted, m);
        sorted + [m]
      else
        var front := Insert(init, m);
        assert forall x :: x in front ==> Before(x, last) by {
          forall x | x in front ensures Before(x, last) {
            assert x in multiset(front);
          }
        }
        OrderedSnoc(front, last);
        front + [last]
  }

  /** `.sort({ timestamp: 1 })` over messages taken in store order: a stable
      sort by timestamp, so messages with equal timestamps keep their store
      order. */
  function SortByTime(ms: seq<Message>): (r: seq<Message>)
    requires IdsAscending(ms)
    ensures multiset(r) == multiset(ms)
    ensures Ordered(r)
  {
    if |ms| == 0 then []
    else
      var init := ms[..|ms| - 1];
      var last := ms[|ms| - 1];
      assert ms == init + [last];
      var s := SortByTime(init);
      assert forall x :: x in s ==> x.id < last.id by {
        forall x | x in s ensures x.id < last.id {
          assert x in multiset(init);
          var i :| 0 <= i < |init| && init[i] == x;
        }
      }
      Insert(s, last)
  }

  /** The sorted list holds exactly the messages it sorted, as many. */
  lemma SortMembers(ms: seq<Message>)
    requires IdsAscending(ms)
    ensures |SortByTime(ms)| == |ms|
    ensures forall m :: m in SortByTime(ms) <==> m in ms
  {
    var r := SortByTime(ms);
    assert |r| == |multiset(r)| == |multiset(ms)| == |ms|;
    forall m ensures m in r <==> m in ms {
      assert m in r <==> m in multiset(r);
    }
  }

  /** The formatted list: one view per message, in the same order. */
  function Format(users: seq<User>, ms: seq<Message>): (vs: seq<MessageView>)
    requires forall m :: m in ms ==> Resolvable(users, m)
    ensures |vs| == |ms|
    ensures forall i :: 0 <= i < |ms| ==> vs[i] == ViewOf(users, ms[i])
  {
    seq(|ms|, i requires 0 <= i < |ms| => ViewOf(users, ms[i]))
  }

  /** Views ascending by timestamp, and by id among equal timestamps. */
  predicate ViewsOrdered(vs: seq<MessageView>) {
    forall i, j :: 0 <= i < j < |vs| ==>
      vs[i].timestamp < vs[j].timestamp || (vs[i].timestamp == vs[j].timestamp && vs[i].id < vs[j].id)
  }

  /** Formatting is one-to-one and keeps the order. */
  lemma FormatFaithful(users: seq<User>, ms: seq<Message>)
    requires forall m :: m in ms ==> Resolvable(users, m)
    ensures forall v :: v in Format(users, ms) <==> exists m :: m in ms && v == ViewOf(users, m)
    ensures Ordered(ms) ==> ViewsOrdered(Format(users, ms))
  {
    var vs := Format(users, ms);
    forall v | v in vs ensures exists m :: m in ms && v == ViewOf(users, m) {
      var i :| 0 <= i < |vs| && vs[i] == v;
      assert ms[i] in ms;
    }
    forall m | m in ms ensures ViewOf(users, m) in vs {
      var i :| 0 <= i < |ms| && ms[i] == m;
      assert vs[i] == ViewOf(users, m);
    }
  }

  datatype HistoryOutcome = History(views: seq<MessageView>) | ServerError

  /** `getMessages(me, other)`: the conversation, oldest first, formatted.
      When a participant of one of those messages no longer exists, `populate`
      yields null, reading its `_id` throws, and the answer is 500. */
  function GetMessages(users: seq<User>, store: MessageStore, me: UserId, other: UserId): (r: HistoryOutcome)
    requires StoreWf(store)
    ensures r.History? <==> forall m :: m in Conversation(store, me, other) ==> Resolvable(users, m)
    ensures r.History? ==> |r.views| == |Conversation(store, me, other)|
    ensures r.History? ==> forall v :: v in r.views <==>
              exists m :: m in Conversation(store, me, other) && v == ViewOf(users, m)
    ensures r.History? ==> ViewsOrdered(r.views)
  {
    var matches := Conversation(store, me, other);
    ConversationIdsAscending(store, me, other);
    var sorted := SortByTime(matches);
    SortMembers(matches);
    if forall m :: m in sorted ==> Resolvable(users, m) then
      FormatFaithful(users, sorted);
      History(Format(users, sorted))
    else
      ServerError
  }

  /** Messages of a conversation of a well-formed store come in id order. */
  lemma {:induction false} ConversationIdsAscending(store: MessageStore, a: UserId, b: UserId)
    requires StoreWf(store)
    ensures IdsAscending(Conversation(store, a, b))
    ensures forall m :: m in Conversation(store, a, b) ==> m.id < |store|
  {
    if |store| > 0 {
      var init := store[..|store| - 1];
      ConversationIdsAscending(init, a, b);
    }
  }

  /** Both participants see the same history. */
  lemma HistorySymmetric(users: seq<User>, store: MessageStore, a: UserId, b: UserId)
    requires StoreWf(store)
    ensures GetMessages(users, store, a, b) == GetMessages(users, store, b, a)
  {
    ConversationSymmetric(store, a, b);
  }

  /** A message no earlier than any other sorts to the end. */
  lemma SortSnoc(ms: seq<Message>, m: Message)
    requires IdsAscending(ms + [m])
    requires forall x :: x in ms ==> x.timestamp <= m.timestamp
    ensures IdsAscending(ms) && SortByTime(ms + [m]) == SortByTime(ms) + [m]
  {
    var s := ms + [m];
    assert s[..|ms|] == ms;
    assert IdsAscending(ms) by {
      forall i, j | 0 <= i < j < |ms| ensures ms[i].id < ms[j].id {
        assert s[i] == ms[i] && s[j] == ms[j];
      }
    }
    var sorted := SortByTime(ms);
    SortMembers(ms);
    if |sorted| > 0 {
      assert sorted[|sorted| - 1] in ms;
      assert sorted == sorted[..|sorted| - 1] + [sorted[|sorted| - 1]];
    }
  }

  lemma FormatSnoc(users: seq<User>, ms: seq<Message>, m: Message)
    requires forall x :: x in ms + [m] ==> Resolvable(users, x)
    ensures Format(users, ms + [m]) == Format(users, ms) + [ViewOf(users, m)]
  {
  }

  /** A message sent no earlier than anything stored lands at the end of the
      conversation: the next history is the previous one plus its view. */
  lemma SendThenHistory(users: seq<User>, store: MessageStore, a: UserId, b: UserId,
                        content: Option<string>, filePath: Option<string>, now: nat)
    requires StoreWf(store) && HasId(users, a) && HasId(users, b)
    requires forall m :: m in store ==> m.timestamp <= now
    requires GetMessages(users, store, a, b).History?
    ensures var r := SendMessage(users, store, a, b, content, filePath, now, true);
            r.status == 201 &&
            GetMessages(users, r.store, a, b) == History(GetMessages(users, store, a, b).views + [r.data.value])
  {
    var r := SendMessage(users, store, a, b, content, filePath, now, true);
    var m := r.store[|store|];
    assert r.store == store + [m] && r.store[..|store|] == store;
    var ms := Conversation(store, a, b);
    assert Conversation(r.store, a, b) == ms + [m];
    ConversationIdsAscending(store, a, b);
    ConversationIdsAscending(r.store, a, b);
    SortSnoc(ms, m);
    var sorted := SortByTime(ms);
    SortMembers(ms);
    SortMembers(ms + [m]);
    FormatSnoc(users, sorted, m);
  }
}
