/** What a poller watches: an event source with its two timer nodes and its reference count. */
module IoEvent {
  import opened RbShape

  datatype Side = Read | Write

  class IOEvent {
    const rtimernode: Node
    const wtimernode: Node
    var refs: int
    var destroyed: bool

    constructor ()
      ensures fresh(rtimernode) && fresh(wtimernode) && rtimernode != wtimernode
      ensures rtimernode.key == 0 && wtimernode.key == 0 && refs == 0 && !destroyed
    {
      rtimernode := new Node();
      wtimernode := new Node();
      refs, destroyed := 0, false;
    }

    method RequireRef()
      modifies this`refs
      ensures refs == old(refs) + 1
    {
      refs := refs + 1;
    }

    method ReleaseRef()
      modifies this`refs, this`destroyed
      ensures refs == old(refs) - 1 && destroyed == (old(destroyed) || refs == 0)
    {
      refs := refs - 1;
      if refs == 0 {
        destroyed := true;
      }
    }
  }

  ghost function TimerNode(ev: IOEvent, side: Side): Node {
    if side.Read? then ev.rtimernode else ev.wtimernode
  }
}
