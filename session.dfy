/**
 * One connected user: its display name, its fixed address, its mailbox (the
 * channel C, here a queue with a closed flag) and the connection its writer
 * task writes to. Both versions of the server share this record; the two
 * writer loops of the two versions are both here.
 */
module Session {
  import opened Protocol

  /** Why the process would panic. */
  datatype Cause =
    | SendOnClosedMailbox     // a send on a closed channel
    | MissingPrivateContent   // `to|T` with a known T: index 2 of the split is out of range
    | WriteFailed             // the writer's conn.Write returned an error
    | CloseFailed             // the writer's conn.Close returned an error

  /** How a step of the server ended. A panic ends the whole process. */
  datatype Outcome =
    | Ok                  // the step did its work
    | Blocked             // nothing to do: the queue it waits on is empty
    | Finished            // the writer saw its closed mailbox and closed the connection
    | Panic(cause: Cause)

  class User {
    var name: string
    const addr: string
    var queue: seq<string>   // messages sent to C and not yet taken by the writer
    var closed: bool         // C has been closed
    var output: string       // everything written to the connection so far
    var connClosed: bool     // the writer has closed the connection

    /** Once the connection is closed the mailbox is closed and drained for good. */
    ghost predicate Valid()
      reads this
    {
      connClosed ==> closed && queue == []
    }

    /** NewUser: name and address are both the remote address; the mailbox is empty and open. */
    constructor (remote: string)
      ensures name == remote && addr == remote
      ensures queue == [] && !closed && output == [] && !connClosed
      ensures Valid()
    {
      name := remote;
      addr := remote;
      queue := [];
      closed := false;
      output := [];
      connClosed := false;
    }

    /** SendMsg: appends exactly `msg` to this mailbox; a closed mailbox panics instead. */
    method SendMsg(msg: string) returns (out: Outcome)
      requires Valid()
      modifies this`queue
      ensures Valid()
      ensures out == (if closed then Panic(SendOnClosedMailbox) else Ok)
      ensures queue == old(queue) + (if closed then [] else [msg])
    {
      if closed {
        out := Panic(SendOnClosedMailbox);
      } else {
        queue := queue + [msg];
        out := Ok;
      }
    }

    /**
     * ListenMessage of the full server, run over what the mailbox holds now:
     * takes the messages in order and writes each followed by a newline;
     * when the mailbox is empty and closed it closes the connection and ends.
     * The connection accepts `okOps` more writes or closes, then fails;
     * a failure panics.
     */
    method ListenMessage(okOps: nat) returns (out: Outcome)
      requires Valid() && !connClosed
      modifies this`queue, this`output, this`connClosed
      ensures Valid()
      ensures var q := old(queue);
        if okOps < |q| then
          output == old(output) + Framed(q[..okOps]) && queue == q[okOps + 1..]
          && !connClosed && out == Panic(WriteFailed)
        else
          output == old(output) + Framed(q) && queue == []
          && (if !closed then out == Blocked && !connClosed
              else if okOps > |q| then out == Finished && connClosed
              else out == Panic(CloseFailed) && !connClosed)
    {
      ghost var q := queue;
      var written := 0;
      while queue != [] && written < okOps
        invariant 0 <= written <= |q| && written <= okOps
        invariant queue == q[written..]
        invariant output == old(output) + Framed(q[..written])
        invariant !connClosed
      {
        FramedAppend(q[..written], [queue[0]]);
        assert q[..written + 1] == q[..written] + [queue[0]];
        output := output + queue[0] + "\n";
        queue := queue[1..];
        written := written + 1;
      }
      if queue != [] {
        queue := queue[1..];
        out := Panic(WriteFailed);
      } else {
        assert q[..written] == q;
        if !closed {
          out := Blocked;
        } else if written < okOps {
          connClosed := true;
          out := Finished;
        } else {
          out := Panic(CloseFailed);
        }
      }
    }

    /**
     * ListenMessage of the older server, run over what the mailbox holds now:
     * takes every message in order and writes it followed by a newline,
     * ignoring write errors; it never closes anything and never ends. The
     * connection accepts the first `okWrites` writes; the rest are lost.
     */
    method LegacyListenMessage(okWrites: nat) returns (out: Outcome)
      requires Valid()
      modifies this`queue, this`output
      ensures Valid()
      ensures queue == [] && out == Blocked
      ensures var q := old(queue);
        output == old(output) + Framed(q[..if okWrites < |q| then okWrites else |q|])
    {
      ghost var q := queue;
      var taken := 0;
      while queue != []
        invariant 0 <= taken <= |q|
        invariant queue == q[taken..]
        invariant output == old(output) + Framed(q[..if okWrites < taken then okWrites else taken])
        invariant Valid()
      {
        if taken < okWrites {
          FramedAppend(q[..taken], [queue[0]]);
          assert q[..taken + 1] == q[..taken] + [queue[0]];
          output := output + queue[0] + "\n";
        }
        queue := queue[1..];
        taken := taken + 1;
      }
      assert q[..taken] == q;
      out := Blocked;
    }
  }
}
