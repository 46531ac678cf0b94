/** `FileIo`'s access modes over a C stream: `switchMode` and the operations that call it. */
module FileIo {
  /** Where a positioning call goes. */
  datatype Move = Stay | To(offset: nat)

  /** What the program does to its stream. Input and output calls say how many bytes they move, and an input call
      whether it met the end of the file. */
  datatype Call = Reopen(mode: string) | Input(atEnd: bool, n: nat) | Output(n: nat) | Positioning(move: Move)

  datatype OpMode = OpRead | OpWrite | OpSeek

  datatype Operation = Read(atEnd: bool, n: nat) | Write(n: nat) | Seek(to: nat)

  /** The object's fields, and the calls made so far. */
  datatype State = State(openMode: string, opMode: OpMode, calls: seq<Call>)

  // ---------- the rules of the C library ----------

  /** Section 7.21.5.3 of ISO/IEC 9899:2011: output and input on one stream need a positioning call in between,
      except that output may follow input that met the end of the file. */
  predicate MayFollow(first: Call, second: Call) {
    && !(first.Output? && second.Input?)
    && !(first.Input? && !first.atEnd && second.Output?)
  }

  ghost predicate Separated(calls: seq<Call>) {
    forall i | 0 <= i < |calls| - 1 :: MayFollow(calls[i], calls[i + 1])
  }

  predicate Readable(mode: string) {
    mode != [] && (mode[0] == 'r' || '+' in mode)
  }

  predicate Writable(mode: string) {
    mode != [] && (mode[0] != 'r' || '+' in mode)
  }

  /** The mode the stream was last opened in. */
  function StreamMode(calls: seq<Call>): string {
    if calls == [] then ""
    else
      var last := calls[|calls| - 1];
      if last.Reopen? then last.mode else StreamMode(calls[..|calls| - 1])
  }

  /** Input happens only on streams opened for it, and output likewise. */
  predicate Permitted(calls: seq<Call>) {
    if calls == [] then true
    else
      var before, last := calls[..|calls| - 1], calls[|calls| - 1];
      && Permitted(before)
      && (last.Input? ==> Readable(StreamMode(before)))
      && (last.Output? ==> Writable(StreamMode(before)))
  }

  /** Where the stream is: a reopened one starts at 0. */
  function Offset(calls: seq<Call>): nat {
    if calls == [] then 0
    else
      var before := Offset(calls[..|calls| - 1]);
      match calls[|calls| - 1]
      case Reopen(_) => 0
      case Input(_, n) => before + n
      case Output(n) => before + n
      case Positioning(move) => if move.To? then move.offset else before
  }

  // ---------- the operations, on values ----------

  function Wanted(op: Operation): OpMode {
    match op
    case Read(_, _) => OpRead
    case Write(_) => OpWrite
    case Seek(_) => OpSeek
  }

  function CallOf(op: Operation): Call {
    match op
    case Read(atEnd, n) => Input(atEnd, n)
    case Write(n) => Output(n)
    case Seek(to) => Positioning(To(to))
  }

  /** The mode string allows the access without reopening: its second character counts, not every one. */
  predicate Allows(openMode: string, opMode: OpMode)
    requires |openMode| >= 2
  {
    match opMode
    case OpRead => openMode[0] == 'r' || openMode[1] == '+'
    case OpWrite => openMode[0] != 'r' || openMode[1] == '+'
    case OpSeek => true
  }

  function Switched(s: State, opMode: OpMode): (t: State)
    requires |s.openMode| >= 2
    ensures |t.openMode| >= 2
  {
    if s.opMode == opMode then s
    else if Allows(s.openMode, opMode) then
      if s.opMode == OpSeek then s.(opMode := opMode)
      else s.(opMode := opMode, calls := s.calls + [Positioning(Stay)])
    else State("r+b", OpSeek, s.calls + [Reopen("r+b"), Positioning(To(Offset(s.calls)))])
  }

  function Next(s: State, op: Operation): (t: State)
    requires |s.openMode| >= 2
    ensures |t.openMode| >= 2
  {
    var t := Switched(s, Wanted(op));
    t.(calls := t.calls + [CallOf(op)])
  }

  function Run(s: State, ops: seq<Operation>): (t: State)
    requires |s.openMode| >= 2
    ensures |t.openMode| >= 2
    decreases |ops|
  {
    if ops == [] then s else Run(Next(s, ops[0]), ops[1..])
  }

  function Opened(mode: string): State {
    State(mode, OpSeek, [Reopen(mode)])
  }

  // ---------- the object ----------

  class FileIo {
    var openMode: string
    var opMode: OpMode
    /** The calls made on the C stream. */
    var calls: seq<Call>

    function Abs(): State
      reads this
    {
      State(openMode, opMode, calls)
    }

    constructor Open(mode: string)
      ensures Abs() == Opened(mode)
    {
      openMode, opMode, calls := mode, OpSeek, [Reopen(mode)];
    }

    method SwitchMode(mode: OpMode)
      requires |openMode| >= 2
      modifies this
      ensures Abs() == Switched(old(Abs()), mode)
    {
      if opMode == mode {
        return;
      }
      var oldOpMode := opMode;
      opMode := mode;
      var reopen := true;
      match mode {
        case OpRead =>
          if openMode[0] == 'r' || openMode[1] == '+' {
            reopen := false;
          }
        case OpWrite =>
          if openMode[0] != 'r' || openMode[1] == '+' {
            reopen := false;
          }
        case OpSeek => reopen := false;
      }
      if !reopen {
        if oldOpMode == OpSeek {
          return;
        }
        calls := calls + [Positioning(Stay)];
        return;
      }
      var offset := Offset(calls);
      openMode, opMode := "r+b", OpSeek;
      calls := calls + [Reopen(openMode)];
      calls := calls + [Positioning(To(offset))];
      assert calls == old(calls) + [Reopen("r+b"), Positioning(To(offset))];
    }

    /** `read` and `getb`. */
    method ReadSome(atEnd: bool, n: nat)
      requires |openMode| >= 2
      modifies this
      ensures Abs() == Next(old(Abs()), Read(atEnd, n))
    {
      SwitchMode(OpRead);
      calls := calls + [Input(atEnd, n)];
    }

    /** `write` and `putb`. */
    method WriteSome(n: nat)
      requires |openMode| >= 2
      modifies this
      ensures Abs() == Next(old(Abs()), Write(n))
    {
      SwitchMode(OpWrite);
      calls := calls + [Output(n)];
    }

    method SeekTo(to: nat)
      requires |openMode| >= 2
      modifies this
      ensures Abs() == Next(old(Abs()), Seek(to))
    {
      SwitchMode(OpSeek);
      calls := calls + [Positioning(To(to))];
    }
  }

  // ---------- every run ----------

  /** The recorded access is allowed, and tells what the last call was. */
  ghost predicate Tracks(s: State) {
    && |s.openMode| >= 2 && Allows(s.openMode, s.opMode) && s.calls != [] && Separated(s.calls)
    && var last := s.calls[|s.calls| - 1];
       match s.opMode
       case OpRead => last.Input?
       case OpWrite => last.Output?
       case OpSeek => last.Positioning? || last.Reopen?
  }

  lemma SeparatedAppend(calls: seq<Call>, call: Call)
    requires Separated(calls)
    requires calls != [] ==> MayFollow(calls[|calls| - 1], call)
    ensures Separated(calls + [call])
  {
  }

  /** An operation that needs no reopening keeps it so. */
  lemma NextTracks(s: State, op: Operation)
    requires Tracks(s) && Allows(s.openMode, Wanted(op))
    ensures Tracks(Next(s, op)) && Next(s, op).openMode == s.openMode
  {
    var t := Switched(s, Wanted(op));
    if t.calls != s.calls {
      SeparatedAppend(s.calls, Positioning(Stay));
    }
    SeparatedAppend(t.calls, CallOf(op));
  }

  /** In a mode with `+` second it is so after any run. */
  lemma {:induction false} RunTracks(s: State, ops: seq<Operation>)
    requires Tracks(s) && s.openMode[1] == '+'
    ensures Tracks(Run(s, ops))
    decreases |ops|
  {
    if ops != [] {
      NextTracks(s, ops[0]);
      RunTracks(Next(s, ops[0]), ops[1..]);
    }
  }

  // ---------- each run ----------

  /** The first operation that the mode does not allow is directly followed by one that may not follow it. */
  predicate Trips(mode: string, ops: seq<Operation>)
    requires |mode| >= 2
    decreases |ops|
  {
    |ops| >= 2 && if Allows(mode, Wanted(ops[0])) then Trips(mode, ops[1..])
                  else !MayFollow(CallOf(ops[0]), CallOf(ops[1]))
  }

  /** The stream has just been reopened, and used once. */
  ghost predicate Reopened(s: State) {
    && s.openMode == "r+b" && s.opMode == OpSeek && s.calls != [] && Separated(s.calls)
    && (s.calls[|s.calls| - 1].Input? || s.calls[|s.calls| - 1].Output?)
  }

  lemma NextReopens(s: State, op: Operation)
    requires Tracks(s) && !Allows(s.openMode, Wanted(op))
    ensures Reopened(Next(s, op)) && Next(s, op).calls[|Next(s, op).calls| - 1] == CallOf(op)
  {
    SeparatedAppend(s.calls, Reopen("r+b"));
    var move := To(Offset(s.calls));
    SeparatedAppend(s.calls + [Reopen("r+b")], Positioning(move));
    var t := Switched(s, Wanted(op));
    assert t.calls == s.calls + [Reopen("r+b")] + [Positioning(move)];
    SeparatedAppend(t.calls, CallOf(op));
  }

  /** The next operation finds the stream marked as positioned, and makes no positioning call of its own accord. */
  lemma AfterReopening(s: State, op: Operation)
    requires Reopened(s)
    ensures var t := Next(s, op);
            && t.openMode == "r+b" && t.calls == s.calls + [CallOf(op)]
            && if MayFollow(s.calls[|s.calls| - 1], CallOf(op)) then Tracks(t) else !Separated(t.calls)
  {
    var t := Next(s, op);
    if MayFollow(s.calls[|s.calls| - 1], CallOf(op)) {
      SeparatedAppend(s.calls, CallOf(op));
    } else {
      var i := |s.calls| - 1;
      assert t.calls[i] == s.calls[i] && t.calls[i + 1] == CallOf(op);
    }
  }

  /** What is wrong stays wrong. */
  lemma {:induction false} RunGrows(s: State, ops: seq<Operation>)
    requires |s.openMode| >= 2 && !Separated(s.calls)
    ensures !Separated(Run(s, ops).calls)
    decreases |ops|
  {
    if ops != [] {
      var t := Next(s, ops[0]);
      assert s.calls <= Switched(s, Wanted(ops[0])).calls;
      StaysBroken(s.calls, t.calls);
      RunGrows(t, ops[1..]);
    }
  }

  lemma StaysBroken(calls: seq<Call>, more: seq<Call>)
    requires calls <= more && !Separated(calls)
    ensures !Separated(more)
  {
    var i :| 0 <= i < |calls| - 1 && !MayFollow(calls[i], calls[i + 1]);
    assert more[i] == calls[i] && more[i + 1] == calls[i + 1];
  }

  lemma {:induction false} TripsFrom(s: State, ops: seq<Operation>)
    requires Tracks(s)
    ensures Separated(Run(s, ops).calls) <==> !Trips(s.openMode, ops)
    decreases |ops|
  {
    if ops != [] {
      var op, t := ops[0], Next(s, ops[0]);
      if Allows(s.openMode, Wanted(op)) {
        NextTracks(s, op);
        TripsFrom(t, ops[1..]);
      } else {
        NextReopens(s, op);
        ReopenedRun(t, ops[1..]);
      }
    }
  }

  lemma ReopenedRun(s: State, ops: seq<Operation>)
    requires Reopened(s)
    ensures Separated(Run(s, ops).calls) <==> ops == [] || MayFollow(s.calls[|s.calls| - 1], CallOf(ops[0]))
  {
    if ops != [] {
      AfterReopening(s, ops[0]);
      var t := Next(s, ops[0]);
      if MayFollow(s.calls[|s.calls| - 1], CallOf(ops[0])) {
        RunTracks(t, ops[1..]);
      } else {
        RunGrows(t, ops[1..]);
      }
    }
  }

  /** A run keeps input and output apart exactly when the first access that its mode does not allow, if there is one,
      is not directly followed by one of the other kind. */
  lemma RunSeparatedIff(mode: string, ops: seq<Operation>)
    requires |mode| >= 2
    ensures Separated(Run(Opened(mode), ops).calls) <==> !Trips(mode, ops)
  {
    TripsFrom(Opened(mode), ops);
  }

  /** A run that breaks the rule, for any mode whose second character is not `+`: the reopened stream is
      left in seek mode, so the access after the next switch is not separated. */
  function Breaking(mode: string): seq<Operation>
    requires |mode| >= 2
  {
    if mode[0] == 'r' then [Write(1), Read(false, 1)] else [Read(false, 1), Write(1)]
  }

  lemma BreakingBreaks(mode: string)
    requires |mode| >= 2 && mode[1] != '+'
    ensures !Separated(Run(Opened(mode), Breaking(mode)).calls)
  {
    RunSeparatedIff(mode, Breaking(mode));
  }

  /** Input and output are kept apart in every run exactly when the mode's second character is `+`. */
  lemma SeparatedIff(mode: string)
    requires |mode| >= 2
    ensures (forall ops: seq<Operation> :: Separated(Run(Opened(mode), ops).calls)) <==> mode[1] == '+'
  {
    if mode[1] == '+' {
      forall ops: seq<Operation> ensures Separated(Run(Opened(mode), ops).calls) {
        RunTracks(Opened(mode), ops);
      }
    } else {
      BreakingBreaks(mode);
    }
  }

  /** Whatever the mode: the stream is open in the recorded mode, which allows the recorded access. */
  ghost predicate Fits(s: State) {
    && |s.openMode| >= 2 && StreamMode(s.calls) == s.openMode && Permitted(s.calls)
    && Allows(s.openMode, s.opMode)
  }

  lemma AllowedAccess(mode: string)
    requires |mode| >= 2
    ensures Allows(mode, OpRead) ==> Readable(mode)
    ensures Allows(mode, OpWrite) ==> Writable(mode)
  {
  }

  lemma CallAppend(calls: seq<Call>, call: Call)
    requires Permitted(calls)
    requires call.Input? ==> Readable(StreamMode(calls))
    requires call.Output? ==> Writable(StreamMode(calls))
    ensures Permitted(calls + [call])
    ensures StreamMode(calls + [call]) == if call.Reopen? then call.mode else StreamMode(calls)
  {
  }

  lemma SwitchFits(s: State, opMode: OpMode)
    requires Fits(s)
    ensures Fits(Switched(s, opMode)) && Allows(Switched(s, opMode).openMode, opMode)
  {
    var move := To(Offset(s.calls));
    CallAppend(s.calls, Positioning(Stay));
    CallAppend(s.calls, Reopen("r+b"));
    CallAppend(s.calls + [Reopen("r+b")], Positioning(move));
    assert s.calls + [Reopen("r+b")] + [Positioning(move)] == s.calls + [Reopen("r+b"), Positioning(move)];
  }

  lemma NextFits(s: State, op: Operation)
    requires Fits(s)
    ensures Fits(Next(s, op))
  {
    var t := Switched(s, Wanted(op));
    SwitchFits(s, Wanted(op));
    AllowedAccess(t.openMode);
    CallAppend(t.calls, CallOf(op));
  }

  lemma {:induction false} RunFits(s: State, ops: seq<Operation>)
    requires Fits(s)
    ensures Fits(Run(s, ops))
    decreases |ops|
  {
    if ops != [] {
      NextFits(s, ops[0]);
      RunFits(Next(s, ops[0]), ops[1..]);
    }
  }

  /** No run reads a stream opened only for writing, or writes one opened only for reading. */
  lemma AlwaysPermitted(mode: string, ops: seq<Operation>)
    requires |mode| >= 2
    ensures Permitted(Run(Opened(mode), ops).calls)
  {
    CallAppend([], Reopen(mode));
    assert [] + [Reopen(mode)] == [Reopen(mode)];
    RunFits(Opened(mode), ops);
  }

  // ---------- the offset ----------

  lemma OffsetAppend(calls: seq<Call>, call: Call)
    ensures Offset(calls + [call]) == match call
                                      case Reopen(_) => 0
                                      case Input(_, n) => Offset(calls) + n
                                      case Output(n) => Offset(calls) + n
                                      case Positioning(move) => if move.To? then move.offset else Offset(calls)
  {
  }

  /** Switching, with or without reopening, leaves the stream where it is. */
  lemma SwitchKeepsOffset(s: State, opMode: OpMode)
    requires |s.openMode| >= 2
    ensures Offset(Switched(s, opMode).calls) == Offset(s.calls)
  {
    var move := To(Offset(s.calls));
    OffsetAppend(s.calls, Positioning(Stay));
    OffsetAppend(s.calls + [Reopen("r+b")], Positioning(move));
    assert s.calls + [Reopen("r+b")] + [Positioning(move)] == s.calls + [Reopen("r+b"), Positioning(move)];
  }

  /** Where a file would be that needs no switching: each access moves on, and a seek goes where it says. */
  function PlainOffset(from: nat, ops: seq<Operation>): nat
    decreases |ops|
  {
    if ops == [] then from
    else
      PlainOffset(match ops[0]
                  case Read(_, n) => from + n
                  case Write(n) => from + n
                  case Seek(to) => to, ops[1..])
  }

  lemma {:induction false} RunOffset(s: State, ops: seq<Operation>)
    requires |s.openMode| >= 2
    ensures Offset(Run(s, ops).calls) == PlainOffset(Offset(s.calls), ops)
    decreases |ops|
  {
    if ops != [] {
      var t := Switched(s, Wanted(ops[0]));
      SwitchKeepsOffset(s, Wanted(ops[0]));
      OffsetAppend(t.calls, CallOf(ops[0]));
      RunOffset(Next(s, ops[0]), ops[1..]);
    }
  }

  /** Whatever the mode, and however often the file is reopened: after any run it is where it would be without. In the
      modes for appending output goes to the end of the file instead, whose length is not known here. */
  lemma OffsetIsPlain(mode: string, ops: seq<Operation>)
    requires |mode| >= 2 && mode[0] != 'a'
    ensures Offset(Run(Opened(mode), ops).calls) == PlainOffset(0, ops)
  {
    OffsetAppend([], Reopen(mode));
    assert [] + [Reopen(mode)] == [Reopen(mode)];
    RunOffset(Opened(mode), ops);
  }

  // ---------- when it is reopened ----------

  /** How often the stream has been opened. */
  function Opens(calls: seq<Call>): nat {
    if calls == [] then 0
    else Opens(calls[..|calls| - 1]) + (if calls[|calls| - 1].Reopen? then 1 else 0)
  }

  /** An access reopens the file exactly when its mode does not allow it and it was not the last access already: reading
      one opened for writing only, or writing one opened for reading only. A seek never does. */
  lemma ReopensIff(s: State, op: Operation)
    requires |s.openMode| >= 2
    ensures Opens(Next(s, op).calls) == Opens(s.calls) + 1 <==>
              || (op.Read? && s.opMode != OpRead && s.openMode[0] != 'r' && s.openMode[1] != '+')
              || (op.Write? && s.opMode != OpWrite && s.openMode[0] == 'r' && s.openMode[1] != '+')
    ensures Opens(Next(s, op).calls) == Opens(s.calls) || Opens(Next(s, op).calls) == Opens(s.calls) + 1
  {
    var t, move := Switched(s, Wanted(op)), To(Offset(s.calls));
    OpensAppend(s.calls, Positioning(Stay));
    OpensAppend(s.calls, Reopen("r+b"));
    OpensAppend(s.calls + [Reopen("r+b")], Positioning(move));
    assert s.calls + [Reopen("r+b")] + [Positioning(move)] == s.calls + [Reopen("r+b"), Positioning(move)];
    OpensAppend(t.calls, CallOf(op));
  }

  lemma OpensAppend(calls: seq<Call>, call: Call)
    ensures Opens(calls + [call]) == Opens(calls) + (if call.Reopen? then 1 else 0)
  {
  }
}
