/** The WebSocket to one door, seen through the frames sent on it so far. */
module Session {
  import opened Records

  class Socket {
    /** Every frame sent on this socket, oldest first. */
    var sent: seq<Frame>

    constructor ()
      ensures sent == []
    {
      sent := [];
    }

    /** `ws.send(frame)`: the frame joins the end of what has been sent. */
    method Send(f: Frame)
      modifies this
      ensures sent == old(sent) + [f]
    {
      sent := sent + [f];
    }
  }
}
