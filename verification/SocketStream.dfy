/** The handler of a connected socket, as far as it decides over references and over its own withdrawal. */
module SocketStream {
  import opened Dispatch
  import opened RefCount

  /** What the parts of a handler call that are not modelled come to. */
  datatype Outcome = Outcome(connects: bool, readFails: bool, writeFails: bool, empty: bool)

  datatype Call = Call(mask: Word, o: Outcome)

  class Stream {
    var isConnected: bool
    var isClosed: bool
    var closeWhenEmpty: bool
    var refs: int
    /** How often the poller was asked to withdraw the event. */
    var withdrawals: nat

    ghost predicate Valid()
      reads this
    {
      withdrawals == (if isClosed then 1 else 0) && (isClosed ==> !isConnected)
    }

    constructor (references: nat)
      ensures Valid() && !isClosed && refs == references
    {
      isConnected, isClosed, closeWhenEmpty, refs, withdrawals := false, false, false, references, 0;
    }

    /** The call returns before it looks at the timeouts. */
    ghost predicate Early(c: Call)
      reads this
    {
      || isClosed || Closed in c.mask || Failed in c.mask
      || (!isConnected && c.mask * {Readable, Writable} != {} && !c.o.connects)
    }

    /** The call closes the stream although bytes may be left to be written: on an error, or when it cannot connect. */
    ghost predicate ClosesAtOnce(c: Call)
      reads this
    {
      !isClosed && Closed !in c.mask
      && (Failed in c.mask || (!isConnected && c.mask * {Readable, Writable} != {} && !c.o.connects))
    }

    /** The call connects the stream. */
    ghost predicate Connects(c: Call)
      reads this
    {
      !isClosed && !isConnected && c.mask !! {Closed, Failed} && c.mask * {Readable, Writable} != {} && c.o.connects
    }

    /** The call finds the stream broken, or is told to close it. */
    ghost predicate Breaks(c: Call)
      reads this
    {
      || Closed in c.mask || Failed in c.mask
      || (!isConnected && c.mask * {Readable, Writable} != {} && !c.o.connects)
      || (Readable in c.mask && c.o.readFails) || (Writable in c.mask && c.o.writeFails)
    }

    /** Releases the reference of each timeout in the mask, unless the call returns early: then of none. Closes the
        stream when it breaks or had broken, as soon as nothing is left to be written; at once when the mask has
        the error bit without the close bit or the connection fails. */
    method OnEvent(c: Call)
      requires Valid()
      modifies this
      ensures Valid()
      ensures refs == old(refs) - if old(Early(c)) then 0 else Count(c.mask)
      ensures isClosed ==> old(isClosed) || old(Breaks(c)) || old(closeWhenEmpty)
      ensures old(Breaks(c)) && c.o.empty ==> isClosed
      ensures old(Breaks(c)) && !isClosed ==> closeWhenEmpty
      ensures !old(Early(c)) && old(closeWhenEmpty) && c.o.empty ==> isClosed
      ensures old(isClosed) ==> unchanged(this)
      ensures isClosed <==>
        old(isClosed || ClosesAtOnce(c) || (c.o.empty && (Breaks(c) || (closeWhenEmpty && !Early(c)))))
      ensures closeWhenEmpty <==>
        old(closeWhenEmpty) || (!c.o.empty && old(!isClosed && !ClosesAtOnce(c) && Breaks(c)))
      ensures isConnected <==> !isClosed && (old(isConnected) || old(Connects(c)))
      ensures old(closeWhenEmpty) ==> closeWhenEmpty
    {
      if isClosed {
        return;
      }
      var mask := c.mask;
      if Closed in mask {
        CloseWhenEmpty(c.o.empty);
        return;
      }
      if Failed in mask {
        OnClose();
        return;
      }
      if !isConnected && mask * {Readable, Writable} != {} {
        if !c.o.connects {
          OnClose();
          return;
        }
        isConnected := true;
      }
      if Readable in mask && c.o.readFails {
        mask := mask + {Closed};
      }
      if Writable in mask && c.o.writeFails {
        mask := mask + {Closed};
      }
      if ReadTimedOut in mask {
        refs := refs - 1;
      }
      if WriteTimedOut in mask {
        refs := refs - 1;
      }
      if Closed in mask || closeWhenEmpty {
        CloseWhenEmpty(c.o.empty);
      }
    }

    method CloseWhenEmpty(empty: bool)
      requires Valid() && !isClosed
      modifies this
      ensures Valid() && refs == old(refs) && isClosed == empty
      ensures closeWhenEmpty == (old(closeWhenEmpty) || !empty) && isConnected == (old(isConnected) && !empty)
    {
      if empty {
        OnClose();
      } else {
        closeWhenEmpty := true;
      }
    }

    /** Asks for the withdrawal, the first time. */
    method OnClose()
      requires Valid()
      modifies `isClosed, `isConnected, `withdrawals
      ensures Valid() && isClosed
    {
      if !isClosed {
        isClosed := true;
        isConnected := false;
        withdrawals := withdrawals + 1;
      }
    }

    /** However many calls there are, the stream is withdrawn at most once, and never loses more references than
        there were timeouts. */
    method OnEvents(calls: seq<Call>)
      requires Valid()
      modifies this
      ensures Valid() && withdrawals <= 1 && withdrawals >= old(withdrawals)
      ensures old(refs) - Timeouts(calls) <= refs <= old(refs)
    {
      for i := 0 to |calls|
        invariant Valid() && withdrawals >= old(withdrawals)
        invariant old(refs) - Timeouts(calls[..i]) <= refs <= old(refs)
      {
        OnEvent(calls[i]);
        assert calls[..i + 1][..i] == calls[..i];
      }
      assert calls[..|calls|] == calls;
    }
  }

  ghost function Timeouts(calls: seq<Call>): nat {
    if calls == [] then 0 else Timeouts(calls[..|calls| - 1]) + Count(calls[|calls| - 1].mask)
  }
}
