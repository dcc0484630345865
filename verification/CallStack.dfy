/** Call stacks: frames with the words that are pushed on top of them. */
module CallStack {
  import opened Options

  /** The shown name of a frame; texts are abstracted. */
  datatype FrameName = Main(sp: int) | Function(addr: int) | Interrupt | Unknown

  class CallStackFrame {
    var addr: int
    const stackStartAddress: int
    const name: FrameName
    var stack: seq<Option<int>>

    constructor (addr: int, stackStartAddress: int, name: FrameName)
      ensures this.addr == addr && this.stackStartAddress == stackStartAddress && this.name == name && stack == []
    {
      this.addr, this.stackStartAddress, this.name := addr, stackStartAddress, name;
      stack := [];
    }
  }

  /** A frame at one moment. */
  datatype Frame = Frame(addr: int, stackStartAddress: int, name: FrameName, stack: seq<Option<int>>)

  /** The frames as they are now. */
  ghost function Views(frames: seq<CallStackFrame>): (r: seq<Frame>)
    reads frames`addr, frames`stack
    ensures |r| == |frames|
    ensures forall i :: 0 <= i < |r| ==>
              r[i] == Frame(frames[i].addr, frames[i].stackStartAddress, frames[i].name, frames[i].stack)
  {
    if frames == [] then [] else
      var f := frames[|frames| - 1];
      Views(frames[..|frames| - 1]) + [Frame(f.addr, f.stackStartAddress, f.name, f.stack)]
  }

  ghost function FrameSet(frames: seq<CallStackFrame>): set<CallStackFrame> {
    set i | 0 <= i < |frames| :: frames[i]
  }

  /** The words that are pushed on each frame. */
  ghost function Contents(frames: seq<CallStackFrame>): (r: seq<seq<Option<int>>>)
    reads frames`stack
    ensures |r| == |frames| && forall i :: 0 <= i < |r| ==> r[i] == frames[i].stack
  {
    if frames == [] then [] else Contents(frames[..|frames| - 1]) + [frames[|frames| - 1].stack]
  }
}
