/**
 * The full server: the registry `OnlineMap` (name to user), the broadcast bus
 * `Message`, and the operations of its handler, run one at a time. Every
 * value a goroutine would hand to another through a channel is a queue here;
 * a step that would block on an empty queue returns Blocked.
 */
module ChatServer {
  import opened Protocol
  import opened Session

  /** The address of each registered name, as the `who` reply shows it. */
  function AddressView(registry: map<string, User>): (view: map<string, string>)
    ensures view.Keys == registry.Keys
    ensures forall k :: k in registry ==> view[k] == registry[k].addr
  {
    map k | k in registry :: registry[k].addr
  }

  /**
   * Of the mailboxes in `users`, only `to`'s changed, by receiving `m`; when
   * `to`'s mailbox is closed the send panics and nothing is received.
   */
  twostate predicate Replied(to: User, m: string, users: set<User>, out: Outcome)
    reads to, users
  {
    && to.queue == old(to.queue) + (if to.closed then [] else [m])
    && out == (if to.closed then Panic(SendOnClosedMailbox) else Ok)
    && forall v :: v in users && v != to ==> v.queue == old(v.queue)
  }

  /** No mailbox in `users` changed. */
  twostate predicate Untouched(users: set<User>)
    reads users
  {
    forall v :: v in users ==> v.queue == old(v.queue)
  }

  class Server {
    var onlineMap: map<string, User>
    var message: seq<string>

    /** Every registry key names a user whose Name is that key. */
    ghost predicate Valid()
      reads this, onlineMap.Values
    {
      forall k :: k in onlineMap ==> onlineMap[k].name == k && onlineMap[k].Valid()
    }

    /** Distinct keys hold distinct users, so no user is registered twice. */
    lemma ValidIsInjective(k1: string, k2: string)
      requires Valid() && k1 in onlineMap && k2 in onlineMap
      ensures onlineMap[k1] == onlineMap[k2] <==> k1 == k2
    {
    }

    /** NewServer: an empty registry and an empty bus. */
    constructor ()
      ensures onlineMap == map[] && message == []
      ensures Valid()
    {
      onlineMap := map[];
      message := [];
    }

    /** BroadCast: queues `[addr]name msg` on the bus, formatted with the user's current name. */
    method BroadCast(user: User, msg: string)
      modifies this`message
      ensures message == old(message) + [Announce(user.addr, user.name, msg)]
    {
      message := message + [Announce(user.addr, user.name, msg)];
    }

    /** onlineUser: registers the user under its current name, then announces it. */
    method OnlineUser(user: User)
      requires Valid() && user.Valid()
      modifies this`onlineMap, this`message
      ensures Valid()
      ensures onlineMap == old(onlineMap)[user.name := user]
      ensures message == old(message) + [Announce(user.addr, user.name, OnlineText)]
    {
      onlineMap := onlineMap[user.name := user];
      BroadCast(user, OnlineText);
    }

    /** offlineUser: removes the user's current name from the registry, then announces it. */
    method OfflineUser(user: User)
      requires Valid()
      modifies this`onlineMap, this`message
      ensures Valid()
      ensures onlineMap == old(onlineMap) - {user.name}
      ensures message == old(message) + [Announce(user.addr, user.name, OfflineText)]
    {
      onlineMap := onlineMap - {user.name};
      BroadCast(user, OfflineText);
    }

    /** A new connection from `remote`: NewUser followed by onlineUser. */
    method Connect(remote: string) returns (user: User)
      requires Valid()
      modifies this`onlineMap, this`message
      ensures Valid() && user.Valid() && fresh(user)
      ensures user.name == remote && user.addr == remote
      ensures user.queue == [] && !user.closed && user.output == [] && !user.connClosed
      ensures onlineMap == old(onlineMap)[remote := user]
      ensures message == old(message) + [Announce(remote, remote, OnlineText)]
    {
      user := new User(remote);
      OnlineUser(user);
    }

    /** getOnlineUsers: one `[addr]name 在线...` line per registered user, in map order. */
    method GetOnlineUsers() returns (s: string)
      requires Valid()
      ensures IsSnapshot(s, AddressView(onlineMap))
    {
      ghost var view := AddressView(onlineMap);
      ghost var names: seq<string> := [];
      var rest := onlineMap.Keys;
      s := "";
      while rest != {}
        invariant rest <= onlineMap.Keys
        invariant Distinct(names)
        invariant forall n :: n in names <==> n in onlineMap && n !in rest
        invariant s == OnlineList(names, view)
        decreases rest
      {
        var k :| k in rest;
        var user := onlineMap[k];
        OnlineListAppend(names, k, view);
        s := s + OnlineLine(user.addr, user.name);
        names := names + [k];
        rest := rest - {k};
      }
      assert Enumerates(names, view);
    }

    /**
     * One pass of ListenMessager: takes the head of the bus and sends it to
     * every registered mailbox once. A closed mailbox among them panics.
     */
    method FanOutStep() returns (out: Outcome)
      requires Valid()
      modifies this`message, onlineMap.Values`queue
      ensures Valid() && onlineMap == old(onlineMap)
      ensures old(message) == [] ==> out == Blocked && message == [] && Untouched(onlineMap.Values)
      ensures old(message) != [] ==> message == old(message)[1..]
      ensures old(message) != [] ==>
        (out == Ok <==> forall k :: k in onlineMap ==> !onlineMap[k].closed)
      ensures old(message) != [] && out == Ok ==>
        forall k :: k in onlineMap ==> onlineMap[k].queue == old(onlineMap[k].queue) + [old(message)[0]]
      ensures old(message) != [] && out != Ok ==> out == Panic(SendOnClosedMailbox)
      ensures old(message) != [] && out != Ok ==>
        forall k :: k in onlineMap ==>
          onlineMap[k].queue == old(onlineMap[k].queue) || onlineMap[k].queue == old(onlineMap[k].queue) + [old(message)[0]]
    {
      if message == [] {
        return Blocked;
      }
      var msg := message[0];
      message := message[1..];
      var rest := onlineMap.Keys;
      while rest != {}
        invariant rest <= onlineMap.Keys
        invariant message == old(message)[1..]
        invariant Valid()
        invariant forall k :: k in onlineMap && k !in rest ==> onlineMap[k].queue == old(onlineMap[k].queue) + [msg]
        invariant forall k :: k in onlineMap && k !in rest ==> !onlineMap[k].closed
        invariant forall k :: k in rest ==> onlineMap[k].queue == old(onlineMap[k].queue)
        decreases rest
      {
        var k :| k in rest;
        var user := onlineMap[k];
        assert forall j :: j in onlineMap && j != k ==> onlineMap[j] != user;
        out := user.SendMsg(msg);
        if out != Ok {
          return;
        }
        rest := rest - {k};
      }
      out := Ok;
    }

    /**
     * doMessage: routes one line from `user` as ParseLine classifies it;
     * Routed says what each command does.
     */
    method DoMessage(msg: string, user: User) returns (out: Outcome)
      requires Valid() && user.Valid()
      modifies this`onlineMap, this`message, user`name, user`queue, onlineMap.Values`queue
      ensures Valid() && user.Valid()
      ensures Routed(msg, user, old(onlineMap), out)
    {
      match ParseLine(msg)
      case Who =>
        var s := GetOnlineUsers();
        out := user.SendMsg(s);
        assert IsSnapshot(s, AddressView(old(onlineMap)));
      case Rename(newName) =>
        if newName in onlineMap {
          out := user.SendMsg(NameTakenReply);
        } else {
          assert forall k :: k in onlineMap && k != user.name ==> onlineMap[k] != user;
          onlineMap := onlineMap - {user.name};
          onlineMap := onlineMap[newName := user];
          user.name := newName;
          out := user.SendMsg(RenamedReply(user.name));
        }
      case Private(target, content) =>
        if target == "" {
          out := user.SendMsg(BadFormatReply);
          return;
        }
        if target !in onlineMap {
          out := user.SendMsg(NoSuchUserReply);
          return;
        }
        var remote := onlineMap[target];
        if content == None {
          return Panic(MissingPrivateContent);
        }
        out := remote.SendMsg(PrivateText(user.name, content.value));
      case Public(text) =>
        BroadCast(user, text);
        out := Ok;
    }

    /**
     * What doMessage does with `msg` from `user`, given the registry
     * `before` it started with: the registry, the bus, the user's name and
     * the mailboxes of `user` and of every registered user.
     */
    twostate predicate Routed(msg: string, user: User, before: map<string, User>, out: Outcome)
      reads this, user, before.Values
    {
      var users := before.Values + {user};
      match ParseLine(msg)
      case Who =>
        && onlineMap == before && message == old(message) && user.name == old(user.name)
        && exists s :: IsSnapshot(s, AddressView(before)) && Replied(user, s, users, out)
      case Rename(newName) =>
        && message == old(message)
        && if newName in before then
             && onlineMap == before && user.name == old(user.name)
             && Replied(user, NameTakenReply, users, out)
           else
             && onlineMap == (before - {old(user.name)})[newName := user] && user.name == newName
             && Replied(user, RenamedReply(newName), users, out)
      case Private(target, content) =>
        && onlineMap == before && message == old(message) && user.name == old(user.name)
        && if target == "" then Replied(user, BadFormatReply, users, out)
           else if target !in before then Replied(user, NoSuchUserReply, users, out)
           else if content == None then out == Panic(MissingPrivateContent) && Untouched(users)
           else Replied(before[target], PrivateText(user.name, content.value), users, out)
      case Public(text) =>
        && onlineMap == before && user.name == old(user.name)
        && message == old(message) + [Announce(user.addr, user.name, text)]
        && Untouched(users) && out == Ok
    }

    /**
     * One pass of the reader loop in Handler: a zero-length read takes the
     * user offline and stops the reader; a failed read with data stops it
     * with no teardown; otherwise the read minus its last character goes to
     * doMessage and the reader goes on. The liveness pulse to the idle
     * timer carries no state here.
     */
    method HandleRead(user: User, chunk: string, err: ReadError) returns (out: Outcome, reading: bool)
      requires Valid() && user.Valid()
      modifies this`onlineMap, this`message, user`name, user`queue, onlineMap.Values`queue
      ensures Valid() && user.Valid()
      ensures reading <==> ExtractLine(chunk, err).Received?
      ensures ExtractLine(chunk, err) == Disconnected ==>
        && out == Ok && user.name == old(user.name)
        && onlineMap == old(onlineMap) - {user.name}
        && message == old(message) + [Announce(user.addr, user.name, OfflineText)]
        && Untouched(old(onlineMap.Values) + {user})
      ensures ExtractLine(chunk, err) == ReaderFailed ==>
        && out == Ok && user.name == old(user.name)
        && onlineMap == old(onlineMap) && message == old(message)
        && Untouched(old(onlineMap.Values) + {user})
      ensures ExtractLine(chunk, err).Received? ==> Routed(ExtractLine(chunk, err).line, user, old(onlineMap), out)
    {
      match ExtractLine(chunk, err)
      case Disconnected =>
        OfflineUser(user);
        out, reading := Ok, false;
      case ReaderFailed =>
        out, reading := Ok, false;
      case Received(line) =>
        out := DoMessage(line, user);
        reading := true;
    }

    /**
     * The timeout branch of Handler: the user is told it timed out and its
     * mailbox is closed. The user stays registered; only the reader's next
     * zero-length read removes it.
     */
    method IdleTimeout(user: User) returns (out: Outcome)
      requires Valid() && user.Valid()
      modifies user`queue, user`closed
      ensures Valid() && user.Valid() && user.closed
      ensures old(user.closed) ==> out == Panic(SendOnClosedMailbox) && user.queue == old(user.queue)
      ensures !old(user.closed) ==> out == Ok && user.queue == old(user.queue) + [TimeoutNotice]
    {
      out := user.SendMsg(TimeoutNotice);
      if out == Ok {
        user.closed := true;
      }
    }
  }
}
