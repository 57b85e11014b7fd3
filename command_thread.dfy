/**
  The motherboard's command dispatcher: a mode machine that consumes the byte queue
  filled by the host link, one complete command at a time.

  The stepper subsystem and the delay timeout are collaborators whose internals are
  not modelled: the answers of `steppers.isRunning()` and `delay_timeout.hasElapsed()`
  are parameters of a slice, and every call the dispatcher makes on them is returned
  as a log of `Call` values.
*/
module CommandThread {
  import opened CNumeric

  /** Opcodes of the host protocol (their values come from the protocol's command table). */
  const HOST_CMD_QUEUE_POINT_ABS: Byte := 129
  const HOST_CMD_SET_POSITION: Byte := 130
  const HOST_CMD_DELAY: Byte := 133

  /** Opcode byte plus payload: four, three and one 32-bit fields. */
  const QUEUE_POINT_ABS_SIZE: nat := 17
  const SET_POSITION_SIZE: nat := 13
  const DELAY_SIZE: nat := 5

  /** WAIT_ON_TOOL is declared by the dispatcher but no slice ever enters it. */
  datatype Mode = Ready | Moving | Delay | WaitOnTool

  /** A call made on a collaborator, in the order made. */
  datatype Call =
    | IsRunning
    | HasElapsed
    | SetTarget(x: Int32, y: Int32, z: Int32, dda: Int32)
    | DefinePosition(x: Int32, y: Int32, z: Int32)
    | StartTimeout(micros: nat)
  {
    /** The calls that start or complete a command, as opposed to status queries. */
    predicate IsCommand()
    {
      SetTarget? || DefinePosition? || StartTimeout?
    }
  }

  // ---------------------------------------------------------------------------
  // Little-endian 32-bit fields

  /** The unsigned value of four bytes stored least significant first. */
  function UnsignedLE(b: seq<Byte>): (u: nat)
    requires |b| == 4
    ensures u < TWO_32
  {
    var b0, b1, b2, b3: int := b[0], b[1], b[2], b[3];
    b0 + 256 * b1 + 65536 * b2 + 16777216 * b3
  }

  /** `pop32`: the `int32_t` whose little-endian image is `b`. */
  function Int32FromBytes(b: seq<Byte>): (v: Int32)
    requires |b| == 4
    ensures v % TWO_32 == UnsignedLE(b)
    ensures v >= 0 <==> b[3] < 128
  {
    var u := UnsignedLE(b);
    if u >= TWO_31 then u - TWO_32 else u
  }

  /** The little-endian image of an `int32_t`, as the host writes it. */
  function Int32ToBytes(v: Int32): (b: seq<Byte>)
    ensures |b| == 4
  {
    var u := v % TWO_32;
    [u % 256, (u / 256) % 256, (u / 65536) % 256, u / 16777216]
  }

  /** The `uint32_t` that an `int32_t` converts to in C: the same bit pattern. */
  function ToUint32(v: Int32): (u: nat)
    ensures u < TWO_32
    ensures v >= 0 ==> u == v
    ensures v < 0 ==> u == v + TWO_32
  {
    v % TWO_32
  }

  lemma UnsignedLEOfImage(u: nat)
    requires u < TWO_32
    ensures UnsignedLE([u % 256, (u / 256) % 256, (u / 65536) % 256, u / 16777216]) == u
  {
    var b0, r0 := u % 256, u / 256;
    var b1, r1 := r0 % 256, r0 / 256;
    var b2, b3 := r1 % 256, r1 / 256;
    assert u == b0 + 256 * r0;
    assert r0 == b1 + 256 * r1;
    assert r1 == b2 + 256 * b3;
    assert u / 65536 == r1;
    assert u / 16777216 == b3;
  }

  /** Decoding the host's encoding of a value gives the value back. */
  lemma Int32RoundTrip(v: Int32)
    ensures Int32FromBytes(Int32ToBytes(v)) == v
  {
    UnsignedLEOfImage(v % TWO_32);
  }

  /** Every four-byte field is the encoding of the value it decodes to. */
  lemma Int32BytesRoundTrip(b: seq<Byte>)
    requires |b| == 4
    ensures Int32ToBytes(Int32FromBytes(b)) == b
  {
    var u := UnsignedLE(b);
    var b0, b1, b2, b3: int := b[0], b[1], b[2], b[3];
    assert Int32FromBytes(b) % TWO_32 == u;
    DivUnique(u, 256, b1 + 256 * b2 + 65536 * b3, b0);
    DivUnique(b1 + 256 * b2 + 65536 * b3, 256, b2 + 256 * b3, b1);
    DivUnique(u, 65536, b2 + 256 * b3, b0 + 256 * b1);
    DivUnique(b2 + 256 * b3, 256, b3, b2);
    DivUnique(u, 16777216, b3, b0 + 256 * b1 + 65536 * b2);
    var image := Int32ToBytes(Int32FromBytes(b));
    assert image[0] == b0 && image[1] == b1 && image[2] == b2 && image[3] == b3;
  }

  /** The `uint32_t microseconds = pop32()` of DELAY is the unsigned value of its four bytes. */
  lemma Uint32OfField(b: seq<Byte>)
    requires |b| == 4
    ensures ToUint32(Int32FromBytes(b)) == UnsignedLE(b)
  {
  }

  // ---------------------------------------------------------------------------
  // One slice as a function of the state and the collaborators' answers

  datatype DispatcherState = DispatcherState(paused: bool, mode: Mode, queue: seq<Byte>)

  /** The state after a slice and the collaborator calls it made. */
  datatype SliceResult = SliceResult(state: DispatcherState, calls: seq<Call>)

  predicate IsKnownOpcode(op: Byte)
  {
    op == HOST_CMD_QUEUE_POINT_ABS || op == HOST_CMD_SET_POSITION || op == HOST_CMD_DELAY
  }

  /** The full length of the command an opcode starts. */
  function CommandSize(op: Byte): (n: nat)
    requires IsKnownOpcode(op)
    ensures 5 <= n <= 17 && (n - 1) % 4 == 0
  {
    if op == HOST_CMD_QUEUE_POINT_ABS then QUEUE_POINT_ABS_SIZE
    else if op == HOST_CMD_SET_POSITION then SET_POSITION_SIZE
    else DELAY_SIZE
  }

  /** The 32-bit field at byte offset `i` of the queue. */
  function FieldAt(q: seq<Byte>, i: nat): (v: Int32)
    requires i + 4 <= |q|
  {
    Int32FromBytes(q[i..i + 4])
  }

  /** Step 3 of a slice, taken in READY: start the command at the head if it is complete. */
  function Dispatch(q: seq<Byte>): (r: SliceResult)
  {
    if |q| == 0 then SliceResult(DispatcherState(false, Ready, q), [])
    else if q[0] == HOST_CMD_QUEUE_POINT_ABS && |q| >= QUEUE_POINT_ABS_SIZE then
      SliceResult(DispatcherState(false, Moving, q[QUEUE_POINT_ABS_SIZE..]),
                  [SetTarget(FieldAt(q, 1), FieldAt(q, 5), FieldAt(q, 9), FieldAt(q, 13))])
    else if q[0] == HOST_CMD_SET_POSITION && |q| >= SET_POSITION_SIZE then
      SliceResult(DispatcherState(false, Ready, q[SET_POSITION_SIZE..]),
                  [DefinePosition(FieldAt(q, 1), FieldAt(q, 5), FieldAt(q, 9))])
    else if q[0] == HOST_CMD_DELAY && |q| >= DELAY_SIZE then
      SliceResult(DispatcherState(false, Delay, q[DELAY_SIZE..]), [StartTimeout(ToUint32(FieldAt(q, 1)))])
    else
      SliceResult(DispatcherState(false, Ready, q), [])
  }

  /** `runCommandSlice` given the answers `isRunning()` and `hasElapsed()` would give. */
  function Slice(s: DispatcherState, running: bool, elapsed: bool): (r: SliceResult)
  {
    if s.paused then SliceResult(s, [])
    else
      var afterMoving := if s.mode == Moving && !running then Ready else s.mode;
      var movingCalls := if s.mode == Moving then [IsRunning] else [];
      var afterDelay := if afterMoving == Delay && elapsed then Ready else afterMoving;
      var delayCalls := if afterMoving == Delay then [HasElapsed] else [];
      if afterDelay == Ready then
        var d := Dispatch(s.queue);
        SliceResult(d.state, movingCalls + delayCalls + d.calls)
      else
        SliceResult(DispatcherState(false, afterDelay, s.queue), movingCalls + delayCalls)
  }

  /** The collaborators' answers for one slice. */
  datatype Answers = Answers(running: bool, elapsed: bool)

  /** Consecutive slices with no bytes arriving in between; the calls of all of them, in order. */
  function RunSlices(s: DispatcherState, answers: seq<Answers>): (r: SliceResult)
    decreases |answers|
  {
    if answers == [] then SliceResult(s, [])
    else
      var first := Slice(s, answers[0].running, answers[0].elapsed);
      var rest := RunSlices(first.state, answers[1..]);
      SliceResult(rest.state, first.calls + rest.calls)
  }

  /** How many of `calls` start a command. */
  function CommandCalls(calls: seq<Call>): (n: nat)
  {
    if calls == [] then 0
    else (if calls[0].IsCommand() then 1 else 0) + CommandCalls(calls[1..])
  }

  // ---------------------------------------------------------------------------
  // The dispatcher itself

  class Dispatcher {
    var paused: bool
    var mode: Mode
    /** The command buffer: filled at the back by the host link, popped at the front here. */
    var queue: seq<Byte>

    ghost function State(): (s: DispatcherState)
      reads this
    {
      DispatcherState(paused, mode, queue)
    }

    constructor ()
      ensures State() == DispatcherState(false, Ready, [])
    {
      paused, mode, queue := false, Ready, [];
    }

    /** `pauseCommandThread`. */
    method PauseCommandThread(pause: bool)
      modifies this`paused
      ensures paused == pause
    {
      paused := pause;
    }

    /** `isCommandThreadPaused`. */
    method IsCommandThreadPaused() returns (p: bool)
      ensures p == paused
    {
      p := paused;
    }

    /** `command_buffer.pop()`. */
    method Pop() returns (b: Byte)
      requires |queue| > 0
      modifies this`queue
      ensures b == old(queue[0]) && queue == old(queue[1..])
    {
      b := queue[0];
      queue := queue[1..];
    }

    /** `pop32`: four pops, least significant byte first. */
    method Pop32() returns (v: Int32)
      requires |queue| >= 4
      modifies this`queue
      ensures v == Int32FromBytes(old(queue[..4])) && queue == old(queue[4..])
    {
      ghost var q := queue;
      var b0 := Pop();
      var b1 := Pop();
      var b2 := Pop();
      var b3 := Pop();
      assert [b0, b1, b2, b3] == q[..4];
      v := Int32FromBytes([b0, b1, b2, b3]);
    }

    /** `resetCommands`: drop everything queued and return to READY, whatever the mode was. */
    method ResetCommands()
      modifies this`queue, this`mode
      ensures queue == [] && mode == Ready
    {
      queue := [];
      mode := Ready;
    }

    /** `runCommandSlice`, with the collaborators' answers as parameters and their calls as result. */
    method RunCommandSlice(running: bool, elapsed: bool) returns (calls: seq<Call>)
      modifies this`mode, this`queue
      ensures SliceResult(State(), calls) == Slice(old(State()), running, elapsed)
    {
      calls := [];
      if paused { return; }
      if mode == Moving {
        calls := calls + [IsRunning];
        if !running { mode := Ready; }
      }
      if mode == Delay {
        calls := calls + [HasElapsed];
        if elapsed { mode := Ready; }
      }
      if mode == Ready {
        var started := DispatchCommand();
        calls := calls + started;
      }
    }

    /** Step 3 of `runCommandSlice`: in READY, start the command at the head if all of it is queued. */
    method DispatchCommand() returns (calls: seq<Call>)
      requires !paused && mode == Ready
      modifies this`mode, this`queue
      ensures SliceResult(State(), calls) == Dispatch(old(queue))
    {
      calls := [];
      ghost var q := queue;
      if |queue| > 0 {
        var command := queue[0];
        if command == HOST_CMD_QUEUE_POINT_ABS {
          if |queue| >= QUEUE_POINT_ABS_SIZE {
            var _ := Pop();
            mode := Moving;
            var x := Pop32();
            var y := Pop32();
            var z := Pop32();
            var dda := Pop32();
            assert q[1..5] == q[1..][..4] && q[5..9] == q[5..][..4];
            assert q[9..13] == q[9..][..4] && q[13..17] == q[13..][..4];
            calls := [SetTarget(x, y, z, dda)];
          }
        } else if command == HOST_CMD_SET_POSITION {
          if |queue| >= SET_POSITION_SIZE {
            var _ := Pop();
            var x := Pop32();
            var y := Pop32();
            var z := Pop32();
            assert q[1..5] == q[1..][..4] && q[5..9] == q[5..][..4] && q[9..13] == q[9..][..4];
            calls := [DefinePosition(x, y, z)];
          }
        } else if command == HOST_CMD_DELAY {
          if |queue| >= DELAY_SIZE {
            mode := Delay;
            var _ := Pop();
            var microseconds := Pop32();
            assert q[1..5] == q[1..][..4];
            calls := [StartTimeout(ToUint32(microseconds))];
          }
        }
      }
    }
  }

  // ---------------------------------------------------------------------------
  // Properties of a slice

  /** While paused a slice changes nothing and calls nobody. */
  lemma PausedSliceIsNoOp(s: DispatcherState, running: bool, elapsed: bool)
    requires s.paused
    ensures Slice(s, running, elapsed) == SliceResult(s, [])
  {
  }

  /** ... and so does any number of slices. */
  lemma {:induction false} PausedSlicesAreNoOps(s: DispatcherState, answers: seq<Answers>)
    requires s.paused
    ensures RunSlices(s, answers) == SliceResult(s, [])
    decreases |answers|
  {
    if answers != [] {
      PausedSlicesAreNoOps(s, answers[1..]);
    }
  }

  /**
    A slice never changes the pause flag and never enters WAIT_ON_TOOL; a slice in
    WAIT_ON_TOOL, which nothing handles, changes nothing and calls nobody.
  */
  lemma SliceKeepsPauseFlag(s: DispatcherState, running: bool, elapsed: bool)
    ensures Slice(s, running, elapsed).state.paused == s.paused
    ensures s.mode != WaitOnTool ==> Slice(s, running, elapsed).state.mode != WaitOnTool
    ensures s.mode == WaitOnTool ==> Slice(s, running, elapsed) == SliceResult(s, [])
  {
  }

  /**
    From MOVING: while the steppers run the slice only asks them; once they stop, the
    mode is READY and the rest of the slice is exactly a READY slice.
  */
  lemma MovingCompletesWhenSteppersStop(s: DispatcherState, running: bool, elapsed: bool)
    requires !s.paused && s.mode == Moving
    ensures running ==> Slice(s, running, elapsed) == SliceResult(s, [IsRunning])
    ensures !running ==>
      var ready := Slice(s.(mode := Ready), running, elapsed);
      Slice(s, running, elapsed) == SliceResult(ready.state, [IsRunning] + ready.calls)
  {
  }

  /** From DELAY: the same, with the timeout in place of the steppers. */
  lemma DelayCompletesWhenTimeoutElapses(s: DispatcherState, running: bool, elapsed: bool)
    requires !s.paused && s.mode == Delay
    ensures !elapsed ==> Slice(s, running, elapsed) == SliceResult(s, [HasElapsed])
    ensures elapsed ==>
      var ready := Slice(s.(mode := Ready), running, elapsed);
      Slice(s, running, elapsed) == SliceResult(ready.state, [HasElapsed] + ready.calls)
  {
  }

  /** A READY slice makes no status query: it does not depend on the collaborators' answers. */
  lemma ReadySliceIgnoresAnswers(s: DispatcherState, r1: bool, e1: bool, r2: bool, e2: bool)
    requires s.mode == Ready
    ensures Slice(s, r1, e1) == Slice(s, r2, e2)
    ensures forall i :: 0 <= i < |Slice(s, r1, e1).calls| ==> Slice(s, r1, e1).calls[i].IsCommand()
  {
  }

  /** A recognised command whose payload has not all arrived is left whole at the head of the queue. */
  lemma IncompleteCommandWaits(s: DispatcherState, running: bool, elapsed: bool)
    requires !s.paused && s.mode == Ready
    requires |s.queue| > 0 && IsKnownOpcode(s.queue[0]) && |s.queue| < CommandSize(s.queue[0])
    ensures Slice(s, running, elapsed) == SliceResult(s, [])
  {
  }

  /** ... however many slices run before the rest of it arrives. */
  lemma {:induction false} IncompleteCommandWaitsForever(s: DispatcherState, answers: seq<Answers>)
    requires !s.paused && s.mode == Ready
    requires |s.queue| > 0 && IsKnownOpcode(s.queue[0]) && |s.queue| < CommandSize(s.queue[0])
    ensures RunSlices(s, answers) == SliceResult(s, [])
    decreases |answers|
  {
    if answers != [] {
      IncompleteCommandWaits(s, answers[0].running, answers[0].elapsed);
      IncompleteCommandWaitsForever(s, answers[1..]);
    }
  }

  /** An unrecognised opcode at the head is never consumed: the dispatcher stalls on it. */
  lemma {:induction false} UnknownOpcodeStalls(s: DispatcherState, answers: seq<Answers>)
    requires !s.paused && s.mode == Ready
    requires |s.queue| > 0 && !IsKnownOpcode(s.queue[0])
    ensures RunSlices(s, answers) == SliceResult(s, [])
    decreases |answers|
  {
    if answers != [] {
      assert Slice(s, answers[0].running, answers[0].elapsed) == SliceResult(s, []);
      UnknownOpcodeStalls(s, answers[1..]);
    }
  }

  /** QUEUE_POINT_ABS with its 17 bytes present: pops exactly those, sets the target, starts MOVING. */
  lemma QueuePointAbsDispatch(s: DispatcherState, running: bool, elapsed: bool)
    requires !s.paused && s.mode == Ready
    requires |s.queue| >= 17 && s.queue[0] == HOST_CMD_QUEUE_POINT_ABS
    ensures var r := Slice(s, running, elapsed);
      && r.state == DispatcherState(false, Moving, s.queue[17..])
      && r.calls == [SetTarget(Int32FromBytes(s.queue[1..5]), Int32FromBytes(s.queue[5..9]),
                               Int32FromBytes(s.queue[9..13]), Int32FromBytes(s.queue[13..17]))]
  {
  }

  /** SET_POSITION with its 13 bytes present: pops exactly those, defines the position, stays READY. */
  lemma SetPositionDispatch(s: DispatcherState, running: bool, elapsed: bool)
    requires !s.paused && s.mode == Ready
    requires |s.queue| >= 13 && s.queue[0] == HOST_CMD_SET_POSITION
    ensures var r := Slice(s, running, elapsed);
      && r.state == DispatcherState(false, Ready, s.queue[13..])
      && r.calls == [DefinePosition(Int32FromBytes(s.queue[1..5]), Int32FromBytes(s.queue[5..9]),
                                    Int32FromBytes(s.queue[9..13]))]
  {
  }

  /** DELAY with its 5 bytes present: pops exactly those, starts the timeout, enters DELAY. */
  lemma DelayDispatch(s: DispatcherState, running: bool, elapsed: bool)
    requires !s.paused && s.mode == Ready
    requires |s.queue| >= 5 && s.queue[0] == HOST_CMD_DELAY
    ensures var r := Slice(s, running, elapsed);
      && r.state == DispatcherState(false, Delay, s.queue[5..])
      && r.calls == [StartTimeout(UnsignedLE(s.queue[1..5]))]
  {
    Uint32OfField(s.queue[1..5]);
  }

  /**
    A slice consumes either nothing or exactly the one complete command at the head,
    never part of one, and starts at most one command.
  */
  lemma AtMostOneCommandPerSlice(s: DispatcherState, running: bool, elapsed: bool)
    ensures var r := Slice(s, running, elapsed);
      || (r.state.queue == s.queue && CommandCalls(r.calls) == 0)
      || (&& |s.queue| > 0 && IsKnownOpcode(s.queue[0]) && CommandSize(s.queue[0]) <= |s.queue|
          && r.state.queue == s.queue[CommandSize(s.queue[0])..] && CommandCalls(r.calls) == 1)
  {
    var r := Slice(s, running, elapsed);
    if !s.paused {
      var d := Dispatch(s.queue);
      assert CommandCalls(d.calls) == |d.calls| <= 1;
      CommandCallsAppend([IsRunning], d.calls);
      CommandCallsAppend([HasElapsed], d.calls);
      CommandCallsAppend([IsRunning, HasElapsed], d.calls);
      assert [IsRunning] + [HasElapsed] == [IsRunning, HasElapsed];
    }
  }

  lemma {:induction false} CommandCallsAppend(a: seq<Call>, b: seq<Call>)
    ensures CommandCalls(a + b) == CommandCalls(a) + CommandCalls(b)
    decreases |a|
  {
    if a == [] {
      assert a + b == b;
    } else {
      assert (a + b)[1..] == a[1..] + b;
      CommandCallsAppend(a[1..], b);
    }
  }

  /** The move x = 100, y = 0, z = 0 at rate 500, sent as one 17-byte command. */
  lemma QueuePointAbsExample()
    ensures var q := [HOST_CMD_QUEUE_POINT_ABS] + Int32ToBytes(100) + Int32ToBytes(0)
                     + Int32ToBytes(0) + Int32ToBytes(500);
      Slice(DispatcherState(false, Ready, q), false, false)
        == SliceResult(DispatcherState(false, Moving, []), [SetTarget(100, 0, 0, 500)])
  {
    var x, zero, rate := Int32ToBytes(100), Int32ToBytes(0), Int32ToBytes(500);
    var q := [HOST_CMD_QUEUE_POINT_ABS] + x + zero + zero + rate;
    assert q[1..5] == x && q[5..9] == zero && q[9..13] == zero && q[13..17] == rate && q[17..] == [];
    Int32RoundTrip(100);
    Int32RoundTrip(0);
    Int32RoundTrip(500);
    QueuePointAbsDispatch(DispatcherState(false, Ready, q), false, false);
  }
}
