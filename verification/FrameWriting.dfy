/** Writing frames to the link below. */
module FrameWriting {
  import opened Bytes
  import opened CanProtocol

  /** The link below: its answer may depend on every frame it was ever offered. */
  class FrameWriter {
    const answers: seq<CanFrame> -> Status
    var offered: seq<CanFrame>

    constructor (answers: seq<CanFrame> -> Status)
      ensures offered == [] && this.answers == answers
    {
      this.answers := answers;
      offered := [];
    }

    method Write(frame: CanFrame) returns (status: Status)
      modifies this
      ensures offered == old(offered) + [frame] && status == answers(offered)
    {
      offered := offered + [frame];
      return answers(offered);
    }
  }
}
