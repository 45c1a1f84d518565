/** The Tekram keyboard and mouse driver of tekram/irkbd.c: the frame decoder and the polling timer. */
module IrKbd {
  import opened Bytes

  const CMD_INIT_KBD: Byte := 0xfe
  const CMD_INIT_MOUSE: Byte := 0xff
  const CMD_ENABLE: Byte := 0x41

  const RSP_KBDOK: Byte := 0x11
  const RSP_KBDERR: Byte := 0x12
  const RSP_MSOK: Byte := 0x21
  const RSP_MSERR: Byte := 0x22
  const RSP_RSPN41: Byte := 0x41

  const RATE := 15000
  const IDLE_RATE := 100000
  const READY_DELAY := 100000
  const TIMEOUT := 1000000
  const BUF_SIZE := 4096

  /** The two high bits of a subframe's first byte. */
  const RESPONSE := 0
  const KEYBOARD := 1
  const MOUSE := 2
  const MOUSE2 := 3

  datatype Phase = Idle | InitKbd | InitMouse | Ready | Polling

  datatype Timer = Off | Armed(micros: nat)

  /** What the decoder hands on: the bytes one by one, and the mark that a mouse or keyboard subframe
      was taken. */
  datatype Dispatch = Mouse(code: Byte) | Key(code: Byte) | Response(rsp: Byte) | Activity

  /** The part of the control block that frames and the timer change. */
  datatype Control = Control(phase: Phase, timer: Timer, powerSave: nat, fifo: seq<Byte>, console: seq<Byte>)

  // ----- subframes -----

  function KindOf(first: Byte): (kind: nat)
    ensures kind <= MOUSE2
  {
    first / 64
  }

  /** Bytes behind the first one: mouse subframes count records of three. */
  function PayloadOf(first: Byte): nat {
    if KindOf(first) >= MOUSE then first % 64 * 3 else first % 64
  }

  function Bytewise(kind: nat, payload: seq<Byte>): seq<Dispatch> {
    if payload == [] then []
    else
      [if kind >= MOUSE then Mouse(payload[0]) else if kind == KEYBOARD then Key(payload[0]) else Response(payload[0])]
      + Bytewise(kind, payload[1..])
  }

  function DispatchesOf(kind: nat, payload: seq<Byte>): seq<Dispatch> {
    Bytewise(kind, payload) + if kind == RESPONSE then [] else [Activity]
  }

  /** The three ranges of a subframe's first byte: its payload is that many responses, that many keys,
      or three times as many mouse bytes. */
  lemma SubframesByFirstByte(first: Byte, payload: seq<Byte>)
    requires |payload| == PayloadOf(first)
    ensures |payload| == if first < 0x40 then first else if first < 0x80 then first - 0x40 else 3 * (first % 0x40)
    ensures var ds := DispatchesOf(KindOf(first), payload);
            && |ds| == |payload| + (if first < 0x40 then 0 else 1) && (first >= 0x40 ==> ds[|payload|] == Activity)
            && forall i :: 0 <= i < |payload| ==>
                 ds[i] == if first < 0x40 then Response(payload[i])
                          else if first < 0x80 then Key(payload[i])
                          else Mouse(payload[i])
  {
    BytewiseAt(KindOf(first), payload);
  }

  lemma {:induction false} BytewiseAt(kind: nat, payload: seq<Byte>)
    ensures |Bytewise(kind, payload)| == |payload|
    ensures forall i :: 0 <= i < |payload| ==>
              Bytewise(kind, payload)[i] ==
              if kind >= MOUSE then Mouse(payload[i])
              else if kind == KEYBOARD then Key(payload[i])
              else Response(payload[i])
  {
    if payload != [] {
      BytewiseAt(kind, payload[1..]);
    }
  }

  /** Where the loop ends and what it dispatched. `overrun` is a subframe that runs past the buffer. */
  datatype Outcome = Outcome(dispatched: seq<Dispatch>, n: nat, overrun: bool)

  /** `len - k` in eight bits. */
  function Less(len: Byte, k: nat): Byte {
    (len - k) % 256
  }

  /** The loop from position `n` with the 8-bit count `len`. */
  function Loop(frame: seq<Byte>, n: nat, len: Byte): Outcome
    decreases |frame| - n
  {
    if len == 0 then Outcome([], n, false)
    else if n >= |frame| || n + 1 + PayloadOf(frame[n]) > |frame| then Outcome([], n, true)
    else
      var payload := PayloadOf(frame[n]);
      var rest := Loop(frame, n + 1 + payload, Less(len, 1 + payload));
      rest.(dispatched := DispatchesOf(KindOf(frame[n]), frame[n + 1..n + 1 + payload]) + rest.dispatched)
  }

  /** The buffer after a receive: what came in, and behind it what was there. A failed receive is []. */
  function Fill(frame: seq<Byte>, received: seq<Byte>): (filled: seq<Byte>)
    requires |received| <= |frame|
    ensures |filled| == |frame|
  {
    received + frame[|received|..]
  }

  // ----- effects -----

  function Respond(c: Control, rsp: Byte): Control {
    if rsp == RSP_RSPN41 then
      c.(powerSave := c.powerSave + 1, timer := Armed(if c.powerSave > 100 then IDLE_RATE else RATE))
    else if rsp == RSP_KBDOK || rsp == RSP_KBDERR then c.(phase := InitMouse, timer := Armed(RATE))
    else if rsp == RSP_MSOK || rsp == RSP_MSERR then c.(phase := Ready, timer := Armed(READY_DELAY))
    else c
  }

  function Effect(c: Control, d: Dispatch): Control {
    match d
    case Mouse(code) => c.(fifo := c.fifo + [code])
    case Key(code) => c.(console := c.console + [code])
    case Response(rsp) => Respond(c, rsp)
    case Activity => c.(powerSave := 0, timer := Armed(RATE))
  }

  function Effects(c: Control, ds: seq<Dispatch>): Control
    decreases |ds|
  {
    if ds == [] then c else Effects(Effect(c, ds[0]), ds[1..])
  }

  lemma {:induction false} EffectsConcat(c: Control, a: seq<Dispatch>, b: seq<Dispatch>)
    ensures Effects(c, a + b) == Effects(Effects(c, a), b)
    decreases |a|
  {
    if a == [] {
      assert a + b == b;
    } else {
      assert (a + b)[0] == a[0] && (a + b)[1..] == a[1..] + b;
      EffectsConcat(Effect(c, a[0]), a[1..], b);
    }
  }

  // ----- the timer's handler -----

  /** The next control state and the command sent, if any. The timer is a single shot. */
  function Expire(c: Control): (Control, Option<Byte>) {
    match c.phase
    case Polling => (c.(timer := Armed(TIMEOUT)), Some(CMD_ENABLE))
    case Idle => (c.(timer := Off), None)
    case InitKbd => (c.(timer := Off), Some(CMD_INIT_KBD))
    case InitMouse => (c.(timer := Off), Some(CMD_INIT_MOUSE))
    case Ready => (c.(timer := Off, phase := Polling), Some(CMD_ENABLE))
  }

  /** Start-up after a connection: the keyboard phase is set and at once overwritten. */
  function StartUp(c: Control): Control {
    c.(phase := InitMouse, timer := Armed(TIMEOUT))
  }

  // ----- the code -----

  class Keyboard {
    var phase: Phase
    var timer: Timer
    var powerSave: nat
    var connected: bool
    var fifo: seq<Byte>
    var console: seq<Byte>
    var sent: seq<Byte>
    const frame: array<Byte>

    ghost predicate Valid() {
      frame.Length == BUF_SIZE
    }

    ghost function Abs(): Control
      reads this
    {
      Control(phase, timer, powerSave, fifo, console)
    }

    constructor ()
      ensures Valid() && fresh(frame) && !connected && sent == []
      ensures Abs() == Control(Idle, Off, 0, [], [])
    {
      phase, timer, powerSave, connected := Idle, Off, 0, false;
      fifo, console, sent := [], [], [];
      frame := new Byte[BUF_SIZE](_ => 0);
    }

    method StartWatchdogTimer(seconds: nat, micros: nat)
      modifies this`timer
      ensures timer == Armed(seconds * 1000000 + micros)
    {
      timer := Armed(seconds * 1000000 + micros);
    }

    method DataRequest(cmd: Byte)
      modifies this`sent
      ensures sent == old(sent) + [cmd]
    {
      sent := sent + [cmd];
    }

    method HandleResponse(rsp: Byte)
      modifies this`phase, this`timer, this`powerSave
      ensures Abs() == Effect(old(Abs()), Response(rsp))
      ensures phase == if rsp in {0x11, 0x12} then InitMouse else if rsp in {0x21, 0x22} then Ready else old(phase)
      ensures timer == if rsp in {0x11, 0x12} then Armed(15000)
                       else if rsp in {0x21, 0x22} then Armed(100000)
                       else if rsp == 0x41 then Armed(if old(powerSave) > 100 then 100000 else 15000)
                       else old(timer)
      ensures powerSave == old(powerSave) + if rsp == 0x41 then 1 else 0
    {
      if rsp == RSP_RSPN41 {
        powerSave := powerSave + 1;
        if powerSave - 1 > 100 {
          StartWatchdogTimer(0, IDLE_RATE);
        } else {
          StartWatchdogTimer(0, RATE);
        }
      } else if rsp == RSP_KBDOK {
        phase := InitMouse;
        StartWatchdogTimer(0, RATE);
      } else if rsp == RSP_KBDERR {
        phase := InitMouse;
        StartWatchdogTimer(0, RATE);
      } else if rsp == RSP_MSOK {
        phase := Ready;
        StartWatchdogTimer(0, READY_DELAY);
      } else if rsp == RSP_MSERR {
        phase := Ready;
        StartWatchdogTimer(0, READY_DELAY);
      }
    }

    /** The inner loops: the payload's bytes one by one, from position `n` on. */
    method HandleBytes(kind: nat, n: nat, count: nat)
      requires Valid() && kind <= MOUSE2 && n + count <= frame.Length
      modifies this`phase, this`timer, this`powerSave, this`fifo, this`console
      ensures Abs() == Effects(old(Abs()), Bytewise(kind, frame[n..n + count]))
    {
      var i := 0;
      while i < count
        invariant 0 <= i <= count
        invariant Effects(Abs(), Bytewise(kind, frame[n + i..n + count]))
                  == Effects(old(Abs()), Bytewise(kind, frame[n..n + count]))
      {
        var code := frame[n + i];
        assert frame[n + i..n + count][1..] == frame[n + i + 1..n + count];
        if kind >= MOUSE {
          fifo := fifo + [code];
        } else if kind == KEYBOARD {
          console := console + [code];
        } else {
          HandleResponse(code);
        }
        i := i + 1;
      }
    }

    /** One subframe, with its first byte at `n`. */
    method HandleSubframe(n: nat, kind: nat, payload: nat)
      requires Valid() && n + 1 + payload <= frame.Length
      requires kind == KindOf(frame[n]) && payload == PayloadOf(frame[n])
      modifies this`phase, this`timer, this`powerSave, this`fifo, this`console
      ensures Abs() == Effects(old(Abs()), DispatchesOf(kind, frame[n + 1..n + 1 + payload]))
      ensures frame[n] >= 0x40 ==> powerSave == 0 && timer == Armed(15000)
    {
      HandleBytes(kind, n + 1, payload);
      if kind != RESPONSE {
        EffectsConcat(old(Abs()), Bytewise(kind, frame[n + 1..n + 1 + payload]), [Activity]);
        powerSave := 0;
        StartWatchdogTimer(0, RATE);
      } else {
        EffectsConcat(old(Abs()), Bytewise(kind, frame[n + 1..n + 1 + payload]), []);
      }
    }

    /** The decoding loop over whatever the buffer holds. */
    method Decode() returns (n: nat, overrun: bool)
      requires Valid()
      modifies this`phase, this`timer, this`powerSave, this`fifo, this`console
      ensures var out := Loop(frame[..], 1, frame[0]);
              Abs() == Effects(old(Abs()), out.dispatched) && n == out.n && overrun == out.overrun
      ensures !overrun ==> n % 256 == (frame[0] as int + 1) % 256
    {
      hide DispatchesOf, PayloadOf, KindOf, Less, Loop;
      n := 0;
      var len := frame[n];
      n := n + 1;
      ghost var done := [];
      ghost var whole := Loop(frame[..], 1, frame[0]);
      while len > 0
        invariant 1 <= n <= frame.Length
        invariant (n + len) % 256 == (frame[0] as int + 1) % 256
        invariant Abs() == Effects(old(Abs()), done)
        invariant Resumes(frame[..], n, len, done, whole)
        decreases frame.Length - n
      {
        if n >= frame.Length {
          ResumesEnds(frame[..], n, len, done, whole);
          return n, true;
        }
        var kind := KindOf(frame[n]);
        var payload := PayloadOf(frame[n]);
        if n + 1 + payload > frame.Length {
          ResumesEnds(frame[..], n, len, done, whole);
          return n, true;
        }
        assert frame[..][n + 1..n + 1 + payload] == frame[n + 1..n + 1 + payload];
        HandleSubframe(n, kind, payload);
        ghost var step := DispatchesOf(kind, frame[n + 1..n + 1 + payload]);
        EffectsConcat(old(Abs()), done, step);
        ResumesNext(frame[..], n, len, done, whole);
        CountKeeps(n, len, 1 + payload);
        done := done + step;
        n := n + 1 + payload;
        len := Less(len, 1 + payload);
      }
      ResumesEnds(frame[..], n, len, done, whole);
      overrun := false;
    }

    /** SIGIO. A failed receive clears `connected` and then decodes the previous frame once more. */
    method DataIndication(received: seq<Byte>) returns (n: nat, overrun: bool)
      requires Valid() && |received| <= 2048
      modifies this`phase, this`timer, this`powerSave, this`fifo, this`console, this`connected, frame
      ensures frame[..] == Fill(old(frame[..]), received)
      ensures connected == (old(connected) && received != [])
      ensures var out := Loop(frame[..], 1, frame[0]);
              Abs() == Effects(old(Abs()), out.dispatched) && n == out.n && overrun == out.overrun
    {
      if received == [] {
        connected := false;
      } else {
        forall i | 0 <= i < |received| {
          frame[i] := received[i];
        }
      }
      n, overrun := Decode();
    }

    /** SIGALRM. */
    method WatchdogTimerExpired()
      requires timer.Armed?
      modifies this`phase, this`timer, this`sent
      ensures Abs() == Expire(old(Abs())).0
      ensures phase == if old(phase) == Ready then Polling else old(phase)
      ensures timer == if old(phase) == Polling then Armed(1000000) else Off
      ensures sent == old(sent) + match Expire(old(Abs())).1 { case None => [] case Some(cmd) => [cmd] }
      ensures sent == old(sent) + match old(phase) {
                        case Idle => []
                        case InitKbd => [0xfe]
                        case InitMouse => [0xff]
                        case _ => [0x41]
                      }
    {
      timer := Off;
      match phase {
        case Polling =>
          DataRequest(CMD_ENABLE);
          StartWatchdogTimer(TIMEOUT / 1000000, 0);
        case Idle =>
        case InitKbd =>
          DataRequest(CMD_INIT_KBD);
        case InitMouse =>
          DataRequest(CMD_INIT_MOUSE);
        case Ready =>
          DataRequest(CMD_ENABLE);
          phase := Polling;
      }
    }

    /** The start-up part of the main loop, with the connection made. */
    method Connect()
      modifies this`phase, this`timer, this`connected
      ensures connected && Abs() == StartUp(old(Abs())) && phase == InitMouse && timer == Armed(1000000)
    {
      connected := true;
      phase := InitKbd;
      phase := InitMouse;
      StartWatchdogTimer(TIMEOUT / 1000000, 0);
    }
  }

  /** Running on from here, with `done` dispatched before, comes out as the whole loop. */
  ghost predicate Resumes(frame: seq<Byte>, n: nat, len: Byte, done: seq<Dispatch>, whole: Outcome) {
    var rest := Loop(frame, n, len);
    whole == Outcome(done + rest.dispatched, rest.n, rest.overrun)
  }

  lemma ResumesEnds(frame: seq<Byte>, n: nat, len: Byte, done: seq<Dispatch>, whole: Outcome)
    requires Resumes(frame, n, len, done, whole)
    requires len == 0 || n >= |frame| || n + 1 + PayloadOf(frame[n]) > |frame|
    ensures whole == Outcome(done, n, len != 0)
  {
    assert done + [] == done;
  }

  lemma ResumesNext(frame: seq<Byte>, n: nat, len: Byte, done: seq<Dispatch>, whole: Outcome)
    requires Resumes(frame, n, len, done, whole) && len > 0
    requires n < |frame| && n + 1 + PayloadOf(frame[n]) <= |frame|
    ensures var payload := PayloadOf(frame[n]);
            var step := DispatchesOf(KindOf(frame[n]), frame[n + 1..n + 1 + payload]);
            Resumes(frame, n + 1 + payload, Less(len, 1 + payload), done + step, whole)
  {
    hide DispatchesOf, Less;
    var payload := PayloadOf(frame[n]);
    var step := DispatchesOf(KindOf(frame[n]), frame[n + 1..n + 1 + payload]);
    var rest := Loop(frame, n + 1 + payload, Less(len, 1 + payload));
    assert done + (step + rest.dispatched) == done + step + rest.dispatched;
  }

  /** The 8-bit count goes down as the position goes up. */
  lemma CountKeeps(n: nat, len: Byte, k: nat)
    ensures (n + k + Less(len, k)) % 256 == (n + len) % 256
  {
    var q := (len - k) / 256;
    assert len - k == 256 * q + Less(len, k);
    assert n + k + Less(len, k) == n + len - 256 * q;
    MultiplesVanish(n + len, q);
  }

  lemma MultiplesVanish(a: int, q: int)
    ensures (a - 256 * q) % 256 == a % 256
  {
    var r := a % 256;
    assert a == 256 * (a / 256) + r;
    assert a - 256 * q == 256 * (a / 256 - q) + r;
  }
}
