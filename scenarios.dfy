/**
 * Clients of the server's contracts: short sessions whose outcome follows
 * from the specifications alone.
 */
module Scenarios {
  import opened Protocol
  import opened Session
  import opened ChatServer

  /** Two users connect; the first announcement reaches both mailboxes. */
  method ConnectTwo(addrA: string, addrB: string)
    requires addrA != addrB
  {
    var server := new Server();
    var a := server.Connect(addrA);
    var b := server.Connect(addrB);
    assert server.onlineMap == map[addrA := a, addrB := b];
    var out := server.FanOutStep();
    assert out == Ok;
    assert server.onlineMap[addrA] == a && server.onlineMap[addrB] == b;
    assert a.queue == b.queue == [Announce(addrA, addrA, OnlineText)];
  }

  /** A user renames itself to a free name, then its connection drops. */
  method RenameAndLeave(addr: string, newName: string)
    requires |newName| > 0 && newName != addr
  {
    var server := new Server();
    var a := server.Connect(addr);
    ParseRename(newName);
    var out := server.DoMessage("rename|" + newName, a);
    assert server.onlineMap == map[newName := a] && a.name == newName;
    assert a.queue == [RenamedReply(newName)];
    var reading;
    out, reading := server.HandleRead(a, "", NoError);
    assert !reading && server.onlineMap == map[];
    assert server.message[|server.message| - 1] == Announce(addr, newName, OfflineText);
  }

  /** A private message reaches its target's mailbox and nobody else's. */
  method PrivateChat(addrA: string, addrB: string, text: string)
    requires addrA != addrB && |addrA| > 0 && '|' !in addrA && '|' !in text
  {
    var server := new Server();
    var a := server.Connect(addrA);
    var b := server.Connect(addrB);
    ParsePrivateFields(addrA, text, "");
    var out := server.DoMessage("to|" + addrA + "|" + text + "", b);
    assert a.queue == [PrivateText(addrB, text)];
    assert b.queue == [];
    assert server.message == [Announce(addrA, addrA, OnlineText), Announce(addrB, addrB, OnlineText)];
  }

  /** Renaming to a taken name, one's own included, changes nothing but the reply. */
  method RenameCollision(addrA: string, addrB: string)
    requires addrA != addrB && |addrB| > 0
  {
    var server := new Server();
    var a := server.Connect(addrA);
    var b := server.Connect(addrB);
    var before := server.onlineMap;
    ParseRename(addrB);
    var out := server.DoMessage("rename|" + addrB, a);
    assert server.onlineMap == before && a.name == addrA;
    assert a.queue == [NameTakenReply] && b.queue == [];
  }

  /**
   * After the idle timeout the user is still registered with a closed
   * mailbox, so a broadcast before its reader sees the closed connection
   * panics; the reader's zero-length read then unregisters it.
   */
  method TimeoutThenBroadcast(addr: string)
  {
    var server := new Server();
    var b := server.Connect(addr);
    var out := server.IdleTimeout(b);
    assert b.closed && b.queue == [TimeoutNotice];
    assert server.onlineMap[addr] == b;
    out := server.FanOutStep();
    assert out == Panic(SendOnClosedMailbox);
    var reading;
    out, reading := server.HandleRead(b, "", EndOfStream);
    assert server.onlineMap == map[];
  }

  /**
   * A user renamed to an address that later connects loses its registry
   * entry to the newcomer, and its own disconnect then removes the newcomer.
   */
  method ConnectOverwritesRenamedUser(addrA: string, addrC: string)
    requires addrA != addrC && |addrC| > 0
  {
    var server := new Server();
    var a := server.Connect(addrA);
    ParseRename(addrC);
    var out := server.DoMessage("rename|" + addrC, a);
    var c := server.Connect(addrC);
    assert server.onlineMap == map[addrC := c];
    var reading;
    out, reading := server.HandleRead(a, "", NoError);
    assert server.onlineMap == map[];
  }
}
