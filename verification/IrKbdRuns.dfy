/** What holds of the keyboard driver's frames and of its polling over whole runs. */
module IrKbdRuns {
  import opened Bytes
  import opened IrKbd

  // ----- well-formed frames -----

  datatype Subframe = Subframe(kind: nat, payload: seq<Byte>) {
    predicate Wf() {
      if kind == MOUSE || kind == MOUSE2 then |payload| % 3 == 0 && |payload| / 3 < 64
      else kind <= KEYBOARD && |payload| < 64
    }

    function Encode(): (s: seq<Byte>)
      requires Wf()
      ensures |s| == 1 + |payload|
    {
      [kind * 64 + if kind >= MOUSE then |payload| / 3 else |payload|] + payload
    }
  }

  predicate AllWf(subs: seq<Subframe>) {
    forall sub <- subs :: sub.Wf()
  }

  function EncodeAll(subs: seq<Subframe>): seq<Byte>
    requires AllWf(subs)
  {
    if subs == [] then [] else subs[0].Encode() + EncodeAll(subs[1..])
  }

  function DispatchAll(subs: seq<Subframe>): seq<Dispatch> {
    if subs == [] then [] else DispatchesOf(subs[0].kind, subs[0].payload) + DispatchAll(subs[1..])
  }

  lemma FirstByte(sub: Subframe)
    requires sub.Wf()
    ensures KindOf(sub.Encode()[0]) == sub.kind && PayloadOf(sub.Encode()[0]) == |sub.payload|
  {
  }

  /** Without a wrap the count is an ordinary difference. */
  lemma LessExact(len: Byte, k: nat)
    requires k <= len
    ensures Less(len, k) == len - k
  {
  }

  /** Splitting what lies behind `n` splits the frame there. */
  lemma SplitAt(frame: seq<Byte>, n: nat, first: seq<Byte>, tail: seq<Byte>)
    requires n <= |frame| && frame[n..] == first + tail && first != []
    ensures n + |first| <= |frame| && frame[n] == first[0]
    ensures frame[n + 1..n + |first|] == first[1..] && frame[n + |first|..] == tail
  {
    var behind := frame[n..];
    assert frame[n] == behind[0];
    assert frame[n + 1..n + |first|] == behind[1..|first|] == first[1..];
    assert frame[n + |first|..] == behind[|first|..] == tail;
  }

  lemma EncodeTail(sub: Subframe)
    requires sub.Wf()
    ensures sub.Encode()[1..] == sub.payload
  {
  }

  /** Where a frame holds a subframe list and the count is its size, the loop takes exactly the list. */
  lemma {:induction false} LoopTakesSubframes(frame: seq<Byte>, n: nat, subs: seq<Subframe>, after: seq<Byte>)
    requires AllWf(subs) && |EncodeAll(subs)| < 256
    requires n <= |frame| && frame[n..] == EncodeAll(subs) + after
    ensures Loop(frame, n, |EncodeAll(subs)|) == Outcome(DispatchAll(subs), n + |EncodeAll(subs)|, false)
    decreases |subs|
  {
    hide KindOf, PayloadOf, DispatchesOf, Less, Subframe.Encode, Subframe.Wf;
    if subs != [] {
      assert subs[0] in subs;
      FirstByte(subs[0]);
      EncodeTail(subs[0]);
      var first := subs[0].Encode();
      var rest := EncodeAll(subs[1..]);
      Associative(first, rest, after);
      SplitAt(frame, n, first, rest + after);
      LessExact(|EncodeAll(subs)|, |first|);
      LoopTakesSubframes(frame, n + |first|, subs[1..], after);
    }
  }

  /** A well-formed frame is decoded to its end and not a byte further, whatever lies behind it. */
  lemma WellFormedFrame(subs: seq<Subframe>, after: seq<Byte>)
    requires AllWf(subs) && |EncodeAll(subs)| < 256
    ensures var size := |EncodeAll(subs)|;
            Loop([size] + EncodeAll(subs) + after, 1, size) == Outcome(DispatchAll(subs), size + 1, false)
  {
    hide Loop;
    var frame := [|EncodeAll(subs)|] + EncodeAll(subs) + after;
    assert frame[1..] == EncodeAll(subs) + after;
    LoopTakesSubframes(frame, 1, subs, after);
  }

  lemma {:induction false} LoopAdvances(frame: seq<Byte>, n: nat, len: Byte)
    ensures Loop(frame, n, len).n >= n
    decreases |frame| - n
  {
    if len > 0 && n < |frame| && n + 1 + PayloadOf(frame[n]) <= |frame| {
      LoopAdvances(frame, n + 1 + PayloadOf(frame[n]), Less(len, 1 + PayloadOf(frame[n])));
    }
  }

  /** The subframe with its first byte at `n`. */
  function SubframeAt(frame: seq<Byte>, n: nat): (sub: Subframe)
    requires n < |frame| && n + 1 + PayloadOf(frame[n]) <= |frame|
    ensures sub.Wf() && sub.Encode() == frame[n..n + 1 + PayloadOf(frame[n])]
  {
    Subframe(KindOf(frame[n]), frame[n + 1..n + 1 + PayloadOf(frame[n])])
  }

  lemma EncodeCons(sub: Subframe, subs: seq<Subframe>)
    requires sub.Wf() && AllWf(subs)
    ensures AllWf([sub] + subs) && EncodeAll([sub] + subs) == sub.Encode() + EncodeAll(subs)
  {
    assert ([sub] + subs)[1..] == subs;
  }

  /** A turn of a loop that ends at `n + len` takes a whole subframe, without a wrap of the count. */
  lemma TurnOfEndedLoop(frame: seq<Byte>, n: nat, len: Byte)
    requires n + len <= |frame| && 0 < len
    requires Loop(frame, n, len).n == n + len && !Loop(frame, n, len).overrun
    ensures n < |frame| && n + 1 + PayloadOf(frame[n]) <= n + len
    ensures var size := 1 + PayloadOf(frame[n]); var rest := Loop(frame, n + size, len - size);
            rest.n == n + len && !rest.overrun
  {
    hide KindOf, PayloadOf, DispatchesOf, Less;
    var size := 1 + PayloadOf(frame[n]);
    LoopAdvances(frame, n + size, Less(len, size));
    LessExact(len, size);
  }

  lemma NoSubframes()
    ensures AllWf([]) && EncodeAll([]) == []
  {
  }

  lemma {:induction false} EndedLoopTookSubframes(frame: seq<Byte>, n: nat, len: Byte) returns (subs: seq<Subframe>)
    requires n + len <= |frame|
    requires Loop(frame, n, len).n == n + len && !Loop(frame, n, len).overrun
    ensures AllWf(subs) && EncodeAll(subs) == frame[n..n + len]
    decreases |frame| - n
  {
    hide Loop, PayloadOf, KindOf, SubframeAt, AllWf, EncodeAll, Subframe.Encode, Subframe.Wf;
    if len == 0 {
      subs := [];
      NoSubframes();
    } else {
      TurnOfEndedLoop(frame, n, len);
      var sub := SubframeAt(frame, n);
      var size: nat := 1 + PayloadOf(frame[n]);
      var rest := EndedLoopTookSubframes(frame, n + size, len - size);
      EncodeCons(sub, rest);
      subs := [sub] + rest;
      SliceJoin(frame, n, n + size, n + len);
    }
  }

  lemma SubframesEndLoop(frame: seq<Byte>, end: nat, subs: seq<Subframe>)
    requires frame != [] && end == 1 + frame[0] as int <= |frame|
    requires AllWf(subs) && EncodeAll(subs) == frame[1..end]
    ensures Loop(frame, 1, frame[0]).n == end && !Loop(frame, 1, frame[0]).overrun
  {
    hide Loop, EncodeAll, AllWf, DispatchAll;
    assert frame[1..] == frame[1..end] + frame[end..];
    LoopTakesSubframes(frame, 1, subs, frame[end..]);
  }

  /** The loop ends at the end the frame declares exactly when the declared bytes are a list of whole
      subframes. */
  lemma EndsAtFrameEndExactly(frame: seq<Byte>)
    requires frame != [] && 1 + frame[0] as int <= |frame|
    ensures var out := Loop(frame, 1, frame[0]);
            var declared := frame[1..1 + frame[0] as int];
            out.n == 1 + frame[0] as int && !out.overrun
            <==> exists subs: seq<Subframe> :: AllWf(subs) && EncodeAll(subs) == declared
  {
    hide Loop, EncodeAll, AllWf, DispatchAll;
    var end: nat := 1 + frame[0] as int;
    var out := Loop(frame, 1, frame[0]);
    if out.n == end && !out.overrun {
      var subs := EndedLoopTookSubframes(frame, 1, frame[0]);
    }
    if subs: seq<Subframe> :| AllWf(subs) && EncodeAll(subs) == frame[1..end] {
      SubframesEndLoop(frame, end, subs);
    }
  }

  /** Where a frame's mouse bytes, in order, end up. */
  function MouseBytes(ds: seq<Dispatch>): seq<Byte> {
    if ds == [] then [] else (if ds[0].Mouse? then [ds[0].code] else []) + MouseBytes(ds[1..])
  }

  function KeyBytes(ds: seq<Dispatch>): seq<Byte> {
    if ds == [] then [] else (if ds[0].Key? then [ds[0].code] else []) + KeyBytes(ds[1..])
  }

  function PayloadsOfKind(subs: seq<Subframe>, mouse: bool): seq<Byte> {
    if subs == [] then []
    else
      (if (if mouse then subs[0].kind >= MOUSE else subs[0].kind == KEYBOARD) then subs[0].payload else [])
      + PayloadsOfKind(subs[1..], mouse)
  }

  lemma {:induction false} MouseBytesConcat(a: seq<Dispatch>, b: seq<Dispatch>)
    ensures MouseBytes(a + b) == MouseBytes(a) + MouseBytes(b)
  {
    if a == [] {
      assert a + b == b;
    } else {
      MouseBytesConcat(a[1..], b);
      assert (a + b)[0] == a[0] && (a + b)[1..] == a[1..] + b;
      Associative(if a[0].Mouse? then [a[0].code] else [], MouseBytes(a[1..]), MouseBytes(b));
    }
  }

  lemma {:induction false} KeyBytesConcat(a: seq<Dispatch>, b: seq<Dispatch>)
    ensures KeyBytes(a + b) == KeyBytes(a) + KeyBytes(b)
  {
    if a == [] {
      assert a + b == b;
    } else {
      KeyBytesConcat(a[1..], b);
      assert (a + b)[0] == a[0] && (a + b)[1..] == a[1..] + b;
      Associative(if a[0].Key? then [a[0].code] else [], KeyBytes(a[1..]), KeyBytes(b));
    }
  }

  lemma OutputsConcat(a: seq<Dispatch>, b: seq<Dispatch>)
    ensures MouseBytes(a + b) == MouseBytes(a) + MouseBytes(b)
    ensures KeyBytes(a + b) == KeyBytes(a) + KeyBytes(b)
  {
    MouseBytesConcat(a, b);
    KeyBytesConcat(a, b);
  }

  lemma OutputsOfSubframe(sub: Subframe)
    requires sub.Wf()
    ensures MouseBytes(DispatchesOf(sub.kind, sub.payload)) == if sub.kind >= MOUSE then sub.payload else []
    ensures KeyBytes(DispatchesOf(sub.kind, sub.payload)) == if sub.kind == KEYBOARD then sub.payload else []
  {
    hide Bytewise;
    OutputsConcat(Bytewise(sub.kind, sub.payload), if sub.kind == RESPONSE then [] else [Activity]);
    OutputsOfPayload(sub.kind, sub.payload);
  }

  lemma {:induction false} OutputsOfPayload(kind: nat, payload: seq<Byte>)
    requires kind <= MOUSE2
    ensures MouseBytes(Bytewise(kind, payload)) == if kind >= MOUSE then payload else []
    ensures KeyBytes(Bytewise(kind, payload)) == if kind == KEYBOARD then payload else []
  {
    if payload != [] {
      OutputsOfPayload(kind, payload[1..]);
      assert Bytewise(kind, payload)[1..] == Bytewise(kind, payload[1..]);
    }
  }

  lemma {:induction false} OutputsOfSubframes(subs: seq<Subframe>)
    requires AllWf(subs)
    ensures MouseBytes(DispatchAll(subs)) == PayloadsOfKind(subs, true)
    ensures KeyBytes(DispatchAll(subs)) == PayloadsOfKind(subs, false)
  {
    if subs != [] {
      hide MouseBytes, KeyBytes, DispatchesOf;
      var sub := subs[0];
      assert sub in subs;
      OutputsOfSubframes(subs[1..]);
      OutputsOfSubframe(sub);
      OutputsConcat(DispatchesOf(sub.kind, sub.payload), DispatchAll(subs[1..]));
    }
  }

  lemma {:induction false} EffectsOnOutputs(c: Control, ds: seq<Dispatch>)
    ensures Effects(c, ds).fifo == c.fifo + MouseBytes(ds)
    ensures Effects(c, ds).console == c.console + KeyBytes(ds)
    decreases |ds|
  {
    if ds != [] {
      EffectsOnOutputs(Effect(c, ds[0]), ds[1..]);
    }
  }

  /** Every mouse byte of a well-formed frame is written to the fifo and every key byte to the console,
      once and in the frame's order. */
  lemma FrameIsDelivered(c: Control, subs: seq<Subframe>, after: seq<Byte>)
    requires AllWf(subs) && |EncodeAll(subs)| < 256
    ensures var size := |EncodeAll(subs)|;
            var c' := Effects(c, Loop([size] + EncodeAll(subs) + after, 1, size).dispatched);
            c'.fifo == c.fifo + PayloadsOfKind(subs, true) && c'.console == c.console + PayloadsOfKind(subs, false)
  {
    WellFormedFrame(subs, after);
    OutputsOfSubframes(subs);
    EffectsOnOutputs(c, DispatchAll(subs));
  }

  // ----- the 8-bit count -----

  /** The pairs (n, len) at the head of the loop, one for each turn and one for the test that ends it. */
  function Heads(frame: seq<Byte>, n: nat, len: Byte): seq<(nat, Byte)>
    decreases |frame| - n
  {
    if len == 0 || n >= |frame| || n + 1 + PayloadOf(frame[n]) > |frame| then [(n, len)]
    else [(n, len)] + Heads(frame, n + 1 + PayloadOf(frame[n]), Less(len, 1 + PayloadOf(frame[n])))
  }

  /** On any bytes, position plus count stays the same modulo 256. */
  lemma {:induction false} HeadsAgree(frame: seq<Byte>, n: nat, len: Byte, i: nat)
    requires i < |Heads(frame, n, len)|
    ensures (Heads(frame, n, len)[i].0 + Heads(frame, n, len)[i].1) % 256 == (n + len) % 256
    decreases i
  {
    if i > 0 {
      var k := 1 + PayloadOf(frame[n]);
      HeadsAgree(frame, n + k, Less(len, k), i - 1);
      CountKeeps(n, len, k);
    }
  }

  // ----- idle replies -----

  /** Idle replies since the last mouse or keyboard subframe. */
  function IdleSince(ds: seq<Dispatch>): nat
    decreases |ds|
  {
    if ds == [] then 0
    else
      var last := ds[|ds| - 1];
      if last == Activity then 0
      else IdleSince(ds[..|ds| - 1]) + if last == Response(RSP_RSPN41) then 1 else 0
  }

  lemma EffectsSnoc(c: Control, ds: seq<Dispatch>, d: Dispatch)
    ensures Effects(c, ds + [d]) == Effect(Effects(c, ds), d)
  {
    EffectsConcat(c, ds, [d]);
    assert [d][1..] == [];
  }

  /** A counter that has counted the idle replies since the last activity goes on doing so. */
  lemma {:induction false} PowerSaveCounts(c: Control, before: seq<Dispatch>, ds: seq<Dispatch>)
    requires c.powerSave == IdleSince(before)
    ensures Effects(c, ds).powerSave == IdleSince(before + ds)
    decreases |ds|
  {
    if ds == [] {
      assert before + ds == before;
    } else {
      var p, d := ds[..|ds| - 1], ds[|ds| - 1];
      PowerSaveCounts(c, before, p);
      EffectsSnoc(c, p, d);
      assert ds == p + [d];
      assert (before + ds)[..|before + ds| - 1] == before + p;
    }
  }

  /** The slow rate is set by an idle reply exactly from the 102nd in a row on. */
  lemma SlowRateExactly(c: Control, before: seq<Dispatch>, ds: seq<Dispatch>)
    requires c.powerSave == IdleSince(before)
    requires ds != [] && ds[|ds| - 1] == Response(RSP_RSPN41)
    ensures Effects(c, ds).timer == Armed(if IdleSince(before + ds) >= 102 then IDLE_RATE else RATE)
  {
    var p := ds[..|ds| - 1];
    PowerSaveCounts(c, before, p);
    EffectsSnoc(c, p, Response(RSP_RSPN41));
    assert ds == p + [Response(RSP_RSPN41)];
    assert (before + ds)[..|before + ds| - 1] == before + p;
  }

  // ----- polling never stalls -----

  predicate Arms(d: Dispatch) {
    d == Activity || (d.Response? && d.rsp in {RSP_RSPN41, RSP_KBDOK, RSP_KBDERR, RSP_MSOK, RSP_MSERR})
  }

  predicate SomeArms(ds: seq<Dispatch>) {
    exists d :: d in ds && Arms(d)
  }

  lemma SomeArmsCons(ds: seq<Dispatch>)
    requires ds != []
    ensures SomeArms(ds) <==> Arms(ds[0]) || SomeArms(ds[1..])
  {
    if Arms(ds[0]) {
      assert ds[0] in ds;
    }
    if d :| d in ds[1..] && Arms(d) {
      assert d in ds;
    }
    if d :| d in ds && Arms(d) {
      assert d == ds[0] || d in ds[1..];
    }
  }

  /** A frame leaves a timer that was off armed exactly when something in it arms. */
  lemma {:induction false} ArmedExactly(c: Control, ds: seq<Dispatch>)
    ensures Effects(c, ds).timer.Armed? <==> c.timer.Armed? || SomeArms(ds)
    decreases |ds|
  {
    if ds != [] {
      ArmedExactly(Effect(c, ds[0]), ds[1..]);
      assert Effect(c, ds[0]).timer.Armed? <==> c.timer.Armed? || Arms(ds[0]);
      SomeArmsCons(ds);
    }
  }

  lemma {:induction false} PhaseAfterEffects(c: Control, ds: seq<Dispatch>)
    ensures Effects(c, ds).phase in {c.phase, InitMouse, Ready}
    decreases |ds|
  {
    if ds != [] {
      PhaseAfterEffects(Effect(c, ds[0]), ds[1..]);
    }
  }

  /** An answer that fits the command. */
  predicate InKind(cmd: Byte, ds: seq<Dispatch>) {
    if cmd == CMD_INIT_MOUSE then Response(RSP_MSOK) in ds || Response(RSP_MSERR) in ds
    else if cmd == CMD_INIT_KBD then Response(RSP_KBDOK) in ds || Response(RSP_KBDERR) in ds
    else Response(RSP_RSPN41) in ds || Activity in ds
  }

  /** The driver, its link and the commands the peer has not answered yet. */
  datatype System = System(c: Control, connected: bool, unanswered: seq<Byte>, sent: seq<Byte>)

  datatype Step =
    | Connects
    | Answers(ds: seq<Dispatch>)
    | Volunteers(ds: seq<Dispatch>)
    | Disconnects(ds: seq<Dispatch>)
    | TimerFires

  predicate Enabled(s: System, step: Step) {
    match step
    case Connects => !s.connected
    case Answers(ds) => s.connected && s.unanswered != [] && InKind(s.unanswered[0], ds)
    case Volunteers(_) => s.connected
    case Disconnects(_) => s.connected
    case TimerFires => s.c.timer.Armed?
  }

  function After(s: System, step: Step): System
    requires Enabled(s, step)
  {
    match step
    case Connects => System(StartUp(s.c), true, [], s.sent)
    case Answers(ds) => s.(c := Effects(s.c, ds), unanswered := s.unanswered[1..])
    case Volunteers(ds) => s.(c := Effects(s.c, ds))
    case Disconnects(ds) => s.(c := Effects(s.c, ds), connected := false)
    case TimerFires =>
      (match Expire(s.c)
       case (c, None) => s.(c := c)
       case (c, Some(cmd)) => System(c, s.connected, s.unanswered + [cmd], s.sent + [cmd]))
  }

  /** A connected driver has a timer running or a command out; the keyboard is never initialised. */
  predicate Alive(s: System) {
    && (s.connected ==> s.c.phase != Idle && (s.c.timer.Armed? || s.unanswered != []))
    && s.c.phase != InitKbd && CMD_INIT_KBD !in s.sent
  }

  const POWER_UP := System(Control(Idle, Off, 0, [], []), false, [], [])

  lemma StepKeepsAlive(s: System, step: Step)
    requires Alive(s) && Enabled(s, step)
    ensures Alive(After(s, step))
  {
    hide Effects;
    match step {
      case Connects =>
      case Answers(ds) =>
        ArmedExactly(s.c, ds);
        PhaseAfterEffects(s.c, ds);
      case Volunteers(ds) =>
        ArmedExactly(s.c, ds);
        PhaseAfterEffects(s.c, ds);
      case Disconnects(ds) =>
        PhaseAfterEffects(s.c, ds);
      case TimerFires =>
    }
  }

  predicate EnabledRun(s: System, steps: seq<Step>)
    decreases |steps|
  {
    steps == [] || (Enabled(s, steps[0]) && EnabledRun(After(s, steps[0]), steps[1..]))
  }

  function RunFrom(s: System, steps: seq<Step>): System
    requires EnabledRun(s, steps)
    decreases |steps|
  {
    if steps == [] then s else RunFrom(After(s, steps[0]), steps[1..])
  }

  lemma {:induction false} RunKeepsAlive(s: System, steps: seq<Step>)
    requires Alive(s) && EnabledRun(s, steps)
    ensures Alive(RunFrom(s, steps))
    decreases |steps|
  {
    hide Alive, After, Enabled;
    if steps != [] {
      StepKeepsAlive(s, steps[0]);
      RunKeepsAlive(After(s, steps[0]), steps[1..]);
    }
  }

  /** From power-up, through any connections and losses, with a peer that answers in kind. */
  lemma PollingNeverStalls(steps: seq<Step>)
    requires EnabledRun(POWER_UP, steps)
    ensures var s := RunFrom(POWER_UP, steps);
            && (s.connected ==> s.c.timer.Armed? || s.unanswered != [])
            && CMD_INIT_KBD !in s.sent
  {
    RunKeepsAlive(POWER_UP, steps);
  }

  // ----- idle replies over whole runs -----

  /** What a step dispatches. */
  function Dispatched(step: Step): seq<Dispatch> {
    match step
    case Answers(ds) => ds
    case Volunteers(ds) => ds
    case Disconnects(ds) => ds
    case _ => []
  }

  function History(steps: seq<Step>): seq<Dispatch> {
    if steps == [] then [] else Dispatched(steps[0]) + History(steps[1..])
  }

  lemma {:induction false} RunCounts(s: System, before: seq<Dispatch>, steps: seq<Step>)
    requires EnabledRun(s, steps) && s.c.powerSave == IdleSince(before)
    ensures RunFrom(s, steps).c.powerSave == IdleSince(before + History(steps))
    decreases |steps|
  {
    hide Effects, IdleSince, Enabled;
    if steps == [] {
      assert before + [] == before;
    } else {
      StepCounts(s, before, steps[0]);
      RunCounts(After(s, steps[0]), before + Dispatched(steps[0]), steps[1..]);
      Associative(before, Dispatched(steps[0]), History(steps[1..]));
    }
  }

  lemma StepCounts(s: System, before: seq<Dispatch>, step: Step)
    requires Enabled(s, step) && s.c.powerSave == IdleSince(before)
    ensures After(s, step).c.powerSave == IdleSince(before + Dispatched(step))
  {
    hide Effects, IdleSince;
    if Dispatched(step) == [] {
      assert before + [] == before;
    }
    PowerSaveCounts(s.c, before, Dispatched(step));
    NoEffects(s.c);
  }

  lemma NoEffects(c: Control)
    ensures Effects(c, []) == c
  {
  }

  /** Over any run from power-up, connections, losses and timer steps included, the counter is the
      number of idle replies since the last mouse or keyboard subframe. */
  lemma PowerSaveOverRuns(steps: seq<Step>)
    requires EnabledRun(POWER_UP, steps)
    ensures RunFrom(POWER_UP, steps).c.powerSave == IdleSince(History(steps))
  {
    RunCounts(POWER_UP, [], steps);
    assert [] + History(steps) == History(steps);
  }

  lemma {:induction false} RunThenStep(s: System, steps: seq<Step>, last: Step)
    requires EnabledRun(s, steps + [last])
    ensures EnabledRun(s, steps) && Enabled(RunFrom(s, steps), last)
    ensures RunFrom(s, steps + [last]) == After(RunFrom(s, steps), last)
    ensures History(steps + [last]) == History(steps) + Dispatched(last)
    decreases |steps|
  {
    hide After, Enabled, Dispatched;
    if steps == [] {
      assert [last][1..] == [] && [] + [last] == [last];
    } else {
      assert (steps + [last])[0] == steps[0] && (steps + [last])[1..] == steps[1..] + [last];
      RunThenStep(After(s, steps[0]), steps[1..], last);
      Associative(Dispatched(steps[0]), History(steps[1..]), Dispatched(last));
    }
  }

  /** So a frame that ends in an idle reply sets the slow rate exactly when that reply is at least the
      102nd since the last activity, in whatever frames and connections they came. */
  lemma SlowRateOverRuns(steps: seq<Step>, last: Step)
    requires EnabledRun(POWER_UP, steps + [last])
    requires Dispatched(last) != [] && Dispatched(last)[|Dispatched(last)| - 1] == Response(RSP_RSPN41)
    ensures RunFrom(POWER_UP, steps + [last]).c.timer
            == Armed(if IdleSince(History(steps + [last])) >= 102 then IDLE_RATE else RATE)
  {
    hide Effects, IdleSince, EnabledRun, RunFrom, History;
    RunThenStep(POWER_UP, steps, last);
    PowerSaveOverRuns(steps);
    SlowRateExactly(RunFrom(POWER_UP, steps).c, History(steps), Dispatched(last));
  }

  // ----- when polling begins -----

  /** What the phase depends on: connections (None) and dispatches. */
  function Marks(ds: seq<Dispatch>): (marks: seq<Option<Dispatch>>)
    ensures |marks| == |ds| && forall i :: 0 <= i < |ds| ==> marks[i] == Some(ds[i])
  {
    seq(|ds|, i requires 0 <= i < |ds| => Some(ds[i]))
  }

  function MarksOf(step: Step): seq<Option<Dispatch>> {
    if step.Connects? then [None] else Marks(Dispatched(step))
  }

  function Trail(steps: seq<Step>): seq<Option<Dispatch>> {
    if steps == [] then [] else MarksOf(steps[0]) + Trail(steps[1..])
  }

  predicate MouseReply(mark: Option<Dispatch>) {
    mark == Some(Response(0x21)) || mark == Some(Response(0x22))
  }

  predicate KeyboardReply(mark: Option<Dispatch>) {
    mark == Some(Response(0x11)) || mark == Some(Response(0x12))
  }

  /** Since the last connection a mouse reply has come, and no keyboard reply after it. */
  ghost predicate MouseAnswered(trail: seq<Option<Dispatch>>) {
    exists i :: 0 <= i < |trail| && MouseReply(trail[i]) && Undisturbed(trail, i)
  }

  predicate Undisturbed(trail: seq<Option<Dispatch>>, i: nat) {
    forall j :: i < j < |trail| ==> trail[j] != None && !KeyboardReply(trail[j])
  }

  predicate Polls(phase: Phase) {
    phase == Ready || phase == Polling
  }

  lemma MouseAnsweredSnoc(trail: seq<Option<Dispatch>>, mark: Option<Dispatch>)
    ensures MouseAnswered(trail + [mark])
            <==> MouseReply(mark) || (MouseAnswered(trail) && mark != None && !KeyboardReply(mark))
  {
    hide MouseReply, KeyboardReply;
    var more := trail + [mark];
    if MouseReply(mark) {
      assert MouseReply(more[|trail|]) && Undisturbed(more, |trail|);
    } else if MouseAnswered(trail) && mark != None && !KeyboardReply(mark) {
      var i :| 0 <= i < |trail| && MouseReply(trail[i]) && Undisturbed(trail, i);
      assert MouseReply(more[i]) && Undisturbed(more, i);
    }
    if MouseAnswered(more) && !MouseReply(mark) {
      var i :| 0 <= i < |more| && MouseReply(more[i]) && Undisturbed(more, i);
      assert i < |trail| && more[|trail|] == mark && MouseReply(trail[i]);
      assert forall j :: i < j < |trail| ==> more[j] == trail[j];
      assert Undisturbed(trail, i);
    }
  }

  lemma {:induction false} PhaseFollowsReplies(c: Control, before: seq<Option<Dispatch>>, ds: seq<Dispatch>)
    requires Polls(c.phase) <==> MouseAnswered(before)
    ensures Polls(Effects(c, ds).phase) <==> MouseAnswered(before + Marks(ds))
    decreases |ds|
  {
    hide MouseAnswered;
    if ds == [] {
      assert before + Marks([]) == before;
    } else {
      var p, d := ds[..|ds| - 1], ds[|ds| - 1];
      PhaseFollowsReplies(c, before, p);
      EffectsSnoc(c, p, d);
      assert ds == p + [d];
      assert before + Marks(ds) == before + Marks(p) + [Some(d)];
      MouseAnsweredSnoc(before + Marks(p), Some(d));
    }
  }

  lemma StepFollowsReplies(s: System, before: seq<Option<Dispatch>>, step: Step)
    requires Enabled(s, step) && (Polls(s.c.phase) <==> MouseAnswered(before))
    ensures Polls(After(s, step).c.phase) <==> MouseAnswered(before + MarksOf(step))
  {
    hide MouseAnswered, Effects;
    match step {
      case Connects => MouseAnsweredSnoc(before, None);
      case TimerFires => assert before + MarksOf(step) == before;
      case Answers(ds) => PhaseFollowsReplies(s.c, before, ds);
      case Volunteers(ds) => PhaseFollowsReplies(s.c, before, ds);
      case Disconnects(ds) => PhaseFollowsReplies(s.c, before, ds);
    }
  }

  lemma {:induction false} RunFollowsReplies(s: System, before: seq<Option<Dispatch>>, steps: seq<Step>)
    requires EnabledRun(s, steps) && (Polls(s.c.phase) <==> MouseAnswered(before))
    ensures Polls(RunFrom(s, steps).c.phase) <==> MouseAnswered(before + Trail(steps))
    decreases |steps|
  {
    hide MouseAnswered, Enabled, After, MarksOf, Polls;
    if steps == [] {
      assert before + [] == before;
    } else {
      StepFollowsReplies(s, before, steps[0]);
      RunFollowsReplies(After(s, steps[0]), before + MarksOf(steps[0]), steps[1..]);
      Associative(before, MarksOf(steps[0]), Trail(steps[1..]));
    }
  }

  /** After any run from power-up the driver polls, or will at the next timer, exactly when a mouse reply
      has come since the last connection with no keyboard reply after it. */
  lemma PollsExactly(steps: seq<Step>)
    requires EnabledRun(POWER_UP, steps)
    ensures Polls(RunFrom(POWER_UP, steps).c.phase) <==> MouseAnswered(Trail(steps))
  {
    RunFollowsReplies(POWER_UP, [], steps);
    assert [] + Trail(steps) == Trail(steps);
  }

  /** Only then, and only by the timer, is the command to report sent. */
  lemma EnableSentExactly(steps: seq<Step>, last: Step)
    requires EnabledRun(POWER_UP, steps + [last])
    ensures EnabledRun(POWER_UP, steps)
    ensures RunFrom(POWER_UP, steps + [last]).sent == RunFrom(POWER_UP, steps).sent + [0x41]
            <==> last.TimerFires? && MouseAnswered(Trail(steps))
  {
    hide Effects, EnabledRun, RunFrom, MouseAnswered;
    RunThenStep(POWER_UP, steps, last);
    PollsExactly(steps);
    var s := RunFrom(POWER_UP, steps);
    var t := After(s, last);
    if t.sent != s.sent {
      assert t.sent[|s.sent|] == 0x41 <==> Polls(s.c.phase);
    }
  }

  /** A command answered with a mouse reply, and no keyboard reply behind it, leads to polling: the timer
      runs, and the next time it fires the command to report goes out. */
  lemma MouseReplyStartsPolling(steps: seq<Step>, ds: seq<Dispatch>)
    requires EnabledRun(POWER_UP, steps + [Answers(ds)]) && MouseAnswered(Marks(ds))
    ensures EnabledRun(POWER_UP, steps) && EnabledRun(POWER_UP, steps + [Answers(ds)] + [TimerFires])
    ensures var s := RunFrom(POWER_UP, steps + [Answers(ds)] + [TimerFires]);
            s.c.phase == Polling && s.sent == RunFrom(POWER_UP, steps).sent + [0x41]
  {
    hide Effects, MouseAnswered, SomeArms, Trail;
    var run := steps + [Answers(ds)];
    RunThenStep(POWER_UP, steps, Answers(ds));
    var was := RunFrom(POWER_UP, steps);
    MouseReplyArms(was.c, ds);
    ExtendRun(POWER_UP, run, TimerFires);
  }

  lemma {:induction false} ExtendRun(s: System, steps: seq<Step>, last: Step)
    requires EnabledRun(s, steps) && Enabled(RunFrom(s, steps), last)
    ensures EnabledRun(s, steps + [last])
    ensures RunFrom(s, steps + [last]) == After(RunFrom(s, steps), last)
    decreases |steps|
  {
    hide After, Enabled;
    if steps == [] {
      assert [last][1..] == [] && [] + [last] == [last];
    } else {
      assert (steps + [last])[0] == steps[0] && (steps + [last])[1..] == steps[1..] + [last];
      ExtendRun(After(s, steps[0]), steps[1..], last);
    }
  }

  lemma MouseReplyArms(c: Control, ds: seq<Dispatch>)
    requires MouseAnswered(Marks(ds))
    ensures Polls(Effects(c, ds).phase) && Effects(c, ds).timer.Armed?
  {
    hide Effects;
    var i :| 0 <= i < |Marks(ds)| && MouseReply(Marks(ds)[i]) && Undisturbed(Marks(ds), i);
    assert ds[i] in ds && Arms(ds[i]);
    ArmedExactly(c, ds);
    var reply := Some(Response(0x21));
    var before := if Polls(c.phase) then [reply] else [];
    MouseAnsweredSnoc([], reply);
    assert [] + [reply] == [reply];
    PhaseFollowsReplies(c, before, ds);
    MouseAnsweredBehind(before, Marks(ds));
  }

  lemma MouseAnsweredBehind(before: seq<Option<Dispatch>>, trail: seq<Option<Dispatch>>)
    requires MouseAnswered(trail)
    ensures MouseAnswered(before + trail)
  {
    hide MouseReply, KeyboardReply;
    var i :| 0 <= i < |trail| && MouseReply(trail[i]) && Undisturbed(trail, i);
    var all, k := before + trail, |before| + i;
    assert all[k] == trail[i];
    assert forall j :: k < j < |all| ==> all[j] == trail[j - |before|];
    assert MouseReply(all[k]) && Undisturbed(all, k);
  }

  /** The shortest way from power-up to polling. */
  lemma FirstConnectionPolls()
    ensures var steps := [Connects, TimerFires, Answers([Response(0x21)]), TimerFires];
            && EnabledRun(POWER_UP, steps)
            && RunFrom(POWER_UP, steps).c.phase == Polling && RunFrom(POWER_UP, steps).sent == [0xff, 0x41]
  {
    var s1 := After(POWER_UP, Connects);
    var s2 := After(s1, TimerFires);
    var s3 := After(s2, Answers([Response(0x21)]));
    var s4 := After(s3, TimerFires);
    assert [Response(0x21)][1..] == [];
    var t3: seq<Step> := [TimerFires];
    var t2 := [Answers([Response(0x21)]), TimerFires];
    var t1 := [TimerFires, Answers([Response(0x21)]), TimerFires];
    var steps := [Connects, TimerFires, Answers([Response(0x21)]), TimerFires];
    assert steps[1..] == t1 && t1[1..] == t2 && t2[1..] == t3 && t3[1..] == [];
  }

  // ----- lost links -----

  /** What handling the frame in the buffer dispatches. */
  function DispatchesIn(frame: seq<Byte>): seq<Dispatch>
    requires frame != []
  {
    Loop(frame, 1, frame[0]).dispatched
  }

  predicate Fits(frame: seq<Byte>, receipts: seq<seq<Byte>>) {
    |frame| == BUF_SIZE && forall r <- receipts :: |r| <= 2048
  }

  /** Every receive, failed or not, handles the buffer as it is then. */
  function Handled(frame: seq<Byte>, receipts: seq<seq<Byte>>): seq<Dispatch>
    requires Fits(frame, receipts)
    decreases |receipts|
  {
    if receipts == [] then []
    else
      var now := Fill(frame, receipts[0]);
      DispatchesIn(now) + Handled(now, receipts[1..])
  }

  /** Every received frame handled once, when it comes in. */
  function HandledOnce(frame: seq<Byte>, receipts: seq<seq<Byte>>): seq<Dispatch>
    requires Fits(frame, receipts)
    decreases |receipts|
  {
    if receipts == [] then []
    else
      var now := Fill(frame, receipts[0]);
      (if receipts[0] == [] then [] else DispatchesIn(now)) + HandledOnce(now, receipts[1..])
  }

  /** The buffer that the receive `k` works on. */
  function BufferAt(frame: seq<Byte>, receipts: seq<seq<Byte>>, k: nat): (now: seq<Byte>)
    requires Fits(frame, receipts) && k < |receipts|
    ensures |now| == |frame|
    decreases k
  {
    var now := Fill(frame, receipts[0]);
    if k == 0 then now else BufferAt(now, receipts[1..], k - 1)
  }

  /** No mouse and no keyboard bytes. */
  predicate Silent(ds: seq<Dispatch>) {
    MouseBytes(ds) == [] && KeyBytes(ds) == []
  }

  /** Every failed receive finds a buffer whose frame has neither. */
  predicate LossesSilent(frame: seq<Byte>, receipts: seq<seq<Byte>>)
    requires Fits(frame, receipts)
  {
    forall k :: 0 <= k < |receipts| && receipts[k] == [] ==> Silent(DispatchesIn(BufferAt(frame, receipts, k)))
  }

  lemma LossesSilentCons(frame: seq<Byte>, receipts: seq<seq<Byte>>)
    requires Fits(frame, receipts) && receipts != []
    ensures var now := Fill(frame, receipts[0]);
            LossesSilent(frame, receipts)
            <==> (receipts[0] == [] ==> Silent(DispatchesIn(now))) && LossesSilent(now, receipts[1..])
  {
    hide Silent, DispatchesIn, Fill;
    var now := Fill(frame, receipts[0]);
    assert BufferAt(frame, receipts, 0) == now;
    forall k | 0 < k < |receipts|
      ensures BufferAt(frame, receipts, k) == BufferAt(now, receipts[1..], k - 1)
    {
    }
    if LossesSilent(frame, receipts) {
      forall k | 0 <= k < |receipts| - 1 && receipts[1..][k] == []
        ensures Silent(DispatchesIn(BufferAt(now, receipts[1..], k)))
      {
        assert receipts[k + 1] == [];
      }
    }
    if (receipts[0] == [] ==> Silent(DispatchesIn(now))) && LossesSilent(now, receipts[1..]) {
      forall k | 0 <= k < |receipts| && receipts[k] == []
        ensures Silent(DispatchesIn(BufferAt(frame, receipts, k)))
      {
        assert k > 0 ==> receipts[1..][k - 1] == [];
      }
    }
  }

  /** With every loss silent the outputs are those of handling each frame once, and else longer. */
  lemma {:induction false} RepeatsAdd(frame: seq<Byte>, receipts: seq<seq<Byte>>)
    requires Fits(frame, receipts)
    ensures var all, once := Handled(frame, receipts), HandledOnce(frame, receipts);
            && |MouseBytes(all)| >= |MouseBytes(once)| && |KeyBytes(all)| >= |KeyBytes(once)|
            && (if LossesSilent(frame, receipts)
                then MouseBytes(all) == MouseBytes(once) && KeyBytes(all) == KeyBytes(once)
                else |MouseBytes(all)| + |KeyBytes(all)| > |MouseBytes(once)| + |KeyBytes(once)|)
    decreases |receipts|
  {
    hide DispatchesIn, Fill, LossesSilent, BufferAt;
    if receipts == [] {
      LossesSilentNone(frame);
    } else {
      hide MouseBytes, KeyBytes;
      var now := Fill(frame, receipts[0]);
      var ds := DispatchesIn(now);
      NoBytes();
      LossesSilentCons(frame, receipts);
      RepeatsAdd(now, receipts[1..]);
      OutputsConcat(ds, Handled(now, receipts[1..]));
      OutputsConcat(if receipts[0] == [] then [] else ds, HandledOnce(now, receipts[1..]));
    }
  }

  lemma NoBytes()
    ensures MouseBytes([]) == [] && KeyBytes([]) == []
  {
  }

  lemma LossesSilentNone(frame: seq<Byte>)
    requires |frame| == BUF_SIZE
    ensures LossesSilent(frame, [])
  {
  }

  /** Any run of receives. Every received frame's mouse bytes are written to the fifo and its key bytes to
      the console once and in order, and nothing else is, exactly when every failed receive finds a
      buffer whose frame has neither. */
  method ReceiveAll(kbd: Keyboard, receipts: seq<seq<Byte>>)
    requires kbd.Valid() && Fits(kbd.frame[..], receipts)
    modifies kbd, kbd.frame
    ensures kbd.Abs() == Effects(old(kbd.Abs()), Handled(old(kbd.frame[..]), receipts))
    ensures var once := HandledOnce(old(kbd.frame[..]), receipts);
            kbd.fifo == old(kbd.fifo) + MouseBytes(once) && kbd.console == old(kbd.console) + KeyBytes(once)
            <==> LossesSilent(old(kbd.frame[..]), receipts)
  {
    hide Loop, Effects, MouseBytes, KeyBytes, LossesSilent, Fill;
    ghost var done := [];
    ghost var all := Handled(kbd.frame[..], receipts);
    NoEffects(kbd.Abs());
    var i := 0;
    while i < |receipts|
      invariant 0 <= i <= |receipts| && Fits(kbd.frame[..], receipts[i..])
      invariant all == done + Handled(kbd.frame[..], receipts[i..])
      invariant kbd.Abs() == Effects(old(kbd.Abs()), done)
    {
      ghost var was := kbd.frame[..];
      assert receipts[i..][0] == receipts[i] && receipts[i..][1..] == receipts[i + 1..];
      assert receipts[i] in receipts[i..];
      var _, _ := kbd.DataIndication(receipts[i]);
      ghost var ds := DispatchesIn(kbd.frame[..]);
      EffectsConcat(old(kbd.Abs()), done, ds);
      Associative(done, ds, Handled(kbd.frame[..], receipts[i + 1..]));
      done := done + ds;
      i := i + 1;
    }
    assert done + [] == done;
    EffectsOnOutputs(old(kbd.Abs()), all);
    RepeatsAdd(old(kbd.frame[..]), receipts);
  }

  /** A well-formed frame, or a failed receive. */
  datatype Receipt = Frame(subs: seq<Subframe>) | Loss {
    predicate Wf() {
      Frame? ==> AllWf(subs) && |EncodeAll(subs)| < 256
    }

    function Encode(): (s: seq<Byte>)
      requires Wf()
      ensures |s| <= 256 && (s == [] <==> Loss?)
    {
      if Loss? then [] else [|EncodeAll(subs)|] + EncodeAll(subs)
    }
  }

  predicate AllReceiptsWf(rs: seq<Receipt>) {
    forall r <- rs :: r.Wf()
  }

  function EncodeReceipts(rs: seq<Receipt>): (receipts: seq<seq<Byte>>)
    requires AllReceiptsWf(rs)
    ensures |receipts| == |rs| && forall r <- receipts :: |r| <= 256
  {
    if rs == [] then [] else [rs[0].Encode()] + EncodeReceipts(rs[1..])
  }

  /** The mouse or the key bytes of all frames. */
  function PayloadsOfFrames(rs: seq<Receipt>, mouse: bool): seq<Byte> {
    if rs == [] then []
    else (if rs[0].Frame? then PayloadsOfKind(rs[0].subs, mouse) else []) + PayloadsOfFrames(rs[1..], mouse)
  }

  lemma DispatchesOfFrame(frame: seq<Byte>, r: Receipt)
    requires r.Wf() && r.Frame? && |frame| == BUF_SIZE
    ensures var ds := DispatchesIn(Fill(frame, r.Encode()));
            MouseBytes(ds) == PayloadsOfKind(r.subs, true) && KeyBytes(ds) == PayloadsOfKind(r.subs, false)
  {
    WellFormedFrame(r.subs, frame[|r.Encode()|..]);
    OutputsOfSubframes(r.subs);
  }

  /** For well-formed frames that is: their payloads. */
  lemma {:induction false} OnceIsPayloads(frame: seq<Byte>, rs: seq<Receipt>)
    requires AllReceiptsWf(rs) && |frame| == BUF_SIZE
    ensures var once := HandledOnce(frame, EncodeReceipts(rs));
            MouseBytes(once) == PayloadsOfFrames(rs, true) && KeyBytes(once) == PayloadsOfFrames(rs, false)
    decreases |rs|
  {
    if rs != [] {
      hide MouseBytes, KeyBytes, DispatchesIn, Fill, PayloadsOfKind, Receipt.Encode, Receipt.Wf;
      assert rs[0] in rs;
      var first := rs[0].Encode();
      var now := Fill(frame, first);
      OnceIsPayloads(now, rs[1..]);
      NoBytes();
      OutputsConcat(if rs[0].Loss? then [] else DispatchesIn(now), HandledOnce(now, EncodeReceipts(rs[1..])));
      if rs[0].Frame? {
        DispatchesOfFrame(frame, rs[0]);
      }
    }
  }

  /** When the receive after a frame fails, the frame still in the buffer is handled a second time. */
  method FrameThenLoss(kbd: Keyboard, received: seq<Byte>) returns (ghost ds: seq<Dispatch>)
    requires kbd.Valid() && received != [] && |received| <= 2048
    modifies kbd, kbd.frame
    ensures !kbd.connected
    ensures ds == DispatchesIn(kbd.frame[..]) && kbd.frame[..|received|] == received
    ensures kbd.Abs() == Effects(old(kbd.Abs()), ds + ds)
  {
    hide Loop, Effects;
    var _, _ := kbd.DataIndication(received);
    ds := DispatchesIn(kbd.frame[..]);
    ghost var was := kbd.frame[..];
    assert [] + was[0..] == was;
    var _, _ := kbd.DataIndication([]);
    EffectsConcat(old(kbd.Abs()), ds, ds);
  }
}
