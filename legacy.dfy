/**
 * The older server at the repository root. Its registry, bus, connect,
 * offline and fan-out are those of the full server (the code is the same),
 * so it runs on the same Server and User state; what differs is its reader,
 * which knows only `who`, has no idle timeout and never closes a mailbox,
 * and its writer (User.LegacyListenMessage).
 */
module LegacyServer {
  import opened Protocol
  import opened Session
  import opened ChatServer

  /**
   * One pass of the older reader loop: a zero-length read takes the user
   * offline; a failed read with data stops the reader; otherwise the read
   * minus its last character is either `who`, answered to the sender alone, or
   * broadcast as it is.
   */
  method LegacyHandleRead(server: Server, user: User, chunk: string, err: ReadError)
    returns (out: Outcome, reading: bool)
    requires server.Valid() && user.Valid()
    modifies server`onlineMap, server`message, user`queue
    ensures server.Valid() && user.Valid()
    ensures user.name == old(user.name) && user.closed == old(user.closed)
    ensures reading <==> ExtractLine(chunk, err).Received?
    ensures var e := ExtractLine(chunk, err);
      server.onlineMap == (if e == Disconnected then old(server.onlineMap) - {user.name} else old(server.onlineMap))
    ensures var e := ExtractLine(chunk, err); e == Disconnected ==>
      && out == Ok && Untouched(old(server.onlineMap.Values) + {user})
      && server.message == old(server.message) + [Announce(user.addr, user.name, OfflineText)]
    ensures ExtractLine(chunk, err) == ReaderFailed ==>
      && out == Ok && Untouched(old(server.onlineMap.Values) + {user})
      && server.message == old(server.message)
    ensures var e := ExtractLine(chunk, err); e.Received? && LegacyParseLine(e.line) == Who ==>
      && server.message == old(server.message)
      && exists s :: IsSnapshot(s, AddressView(old(server.onlineMap)))
                  && Replied(user, s, old(server.onlineMap.Values) + {user}, out)
    ensures var e := ExtractLine(chunk, err); e.Received? && LegacyParseLine(e.line) != Who ==>
      && out == Ok && Untouched(old(server.onlineMap.Values) + {user})
      && server.message == old(server.message) + [Announce(user.addr, user.name, e.line)]
  {
    match ExtractLine(chunk, err)
    case Disconnected =>
      server.OfflineUser(user);
      out, reading := Ok, false;
    case ReaderFailed =>
      out, reading := Ok, false;
    case Received(line) =>
      reading := true;
      if LegacyParseLine(line) == Who {
        var s := server.GetOnlineUsers();
        out := user.SendMsg(s);
        assert IsSnapshot(s, AddressView(old(server.onlineMap)));
      } else {
        server.BroadCast(user, line);
        out := Ok;
      }
  }
}
