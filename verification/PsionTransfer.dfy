/** The file transfer of psion/irpsion5.c: the two data loops, and the protocol between sendfile and
    handle_client as a state machine over the steps of both sides. */
module PsionTransfer {
  import opened Bytes
  import opened PsionHeader

  const BUFLEN := 2044
  const ACK := "ACK Y"

  // ----- the loops -----

  /** A file being read with fread. The end is noticed by a read that comes up short. */
  class InFile {
    const data: string
    var pos: nat
    var eof: bool

    ghost predicate Valid()
      reads this
    {
      pos <= |data| && (eof ==> pos == |data|)
    }

    constructor (data: string)
      ensures Valid() && this.data == data && pos == 0 && !eof
    {
      this.data := data;
      pos, eof := 0, false;
    }

    method Fread(n: nat) returns (buf: string)
      requires Valid()
      modifies this
      ensures Valid()
      ensures buf == NextChunk(old(data[pos..]), n) && pos == old(pos) + |buf|
      ensures eof == (old(eof) || |buf| < n)
    {
      var end := if pos + n <= |data| then pos + n else |data|;
      buf := data[pos..end];
      pos := end;
      eof := eof || |buf| < n;
    }
  }

  function NextChunk(unread: string, n: nat): string {
    if n <= |unread| then unread[..n] else unread
  }

  /** The send loop: what is written, write by write, is the rest of the file, in full buffers but for
      the last. */
  method SendData(f: InFile) returns (cnt: nat, writes: seq<string>)
    requires f.Valid()
    modifies f
    ensures f.Valid() && f.eof
    ensures Flatten(writes) == old(f.data[f.pos..]) && cnt == |Flatten(writes)|
    ensures FullBut(writes, 1)
  {
    cnt := 0;
    writes := [];
    ghost var all := f.data[f.pos..];
    while !f.eof
      invariant f.Valid() && cnt == |Flatten(writes)| && Sent(all, writes, f.data[f.pos..])
      invariant FullBut(writes, if f.eof then 1 else 0)
      decreases |f.data| - f.pos, !f.eof
    {
      ghost var unread := f.data[f.pos..];
      var buf := f.Fread(BUFLEN);
      if buf == "" {
        continue;
      }
      assert unread == buf + f.data[f.pos..];
      SentMore(all, writes, buf, f.data[f.pos..]);
      writes := writes + [buf];
      cnt := cnt + |buf|;
    }
  }

  /** What was written, and what is still unread behind it, make up the whole. */
  ghost predicate Sent(all: string, writes: seq<string>, unread: string) {
    Flatten(writes) + unread == all
  }

  lemma SentMore(all: string, writes: seq<string>, buf: string, unread: string)
    requires Sent(all, writes, buf + unread)
    ensures Sent(all, writes + [buf], unread) && |Flatten(writes + [buf])| == |Flatten(writes)| + |buf|
  {
    FlattenSnoc(writes, buf);
    assert Flatten(writes) + buf + unread == Flatten(writes) + (buf + unread);
  }

  /** Every write but the last `n` is a full buffer, and those are not empty. */
  predicate FullBut(writes: seq<string>, n: nat) {
    && (forall i :: 0 <= i < |writes| ==> 0 < |writes[i]| <= BUFLEN)
    && (forall i :: 0 <= i < |writes| - n ==> |writes[i]| == BUFLEN)
  }

  /** The first `used` reads all brought something, and together at least `fsize` bytes. */
  ghost predicate Enough(fsize: nat, parts: seq<string>, used: nat) {
    used <= |parts| && "" !in parts[..used] && |Flatten(parts[..used])| >= fsize
  }

  lemma {:induction false} MoreIsMore(parts: seq<string>, i: nat, j: nat)
    requires i <= j <= |parts|
    ensures |Flatten(parts[..i])| <= |Flatten(parts[..j])|
    decreases j - i
  {
    if i < j {
      MoreIsMore(parts, i, j - 1);
      assert parts[..j] == parts[..j - 1] + [parts[j - 1]];
      FlattenSnoc(parts[..j - 1], parts[j - 1]);
    }
  }

  /** The receive loop, with the results of its reads in order: it takes exactly as many as it needs to
      have `fsize` bytes. It fails exactly when no number of reads before the first that brings nothing
      is enough, and that read is the one it fails at. */
  method ReceiveData(fsize: nat, parts: seq<string>) returns (ok: bool, file: string, used: nat)
    ensures used <= |parts| && file == Flatten(parts[..used]) && "" !in parts[..used]
    ensures ok ==> |file| >= fsize && (used > 0 ==> |Flatten(parts[..used - 1])| < fsize)
    ensures !ok ==> |file| < fsize && (used < |parts| ==> parts[used] == "")
    ensures ok <==> exists u: nat :: Enough(fsize, parts, u)
  {
    var cnt := 0;
    file := "";
    used := 0;
    while cnt < fsize
      invariant used <= |parts| && file == Flatten(parts[..used]) && cnt == |file|
      invariant "" !in parts[..used]
      invariant used > 0 ==> |Flatten(parts[..used - 1])| < fsize
      decreases |parts| - used
    {
      if used == |parts| || parts[used] == "" {
        forall u: nat
          ensures !Enough(fsize, parts, u)
        {
          NeverEnough(fsize, parts, used, u);
        }
        return false, file, used;
      }
      FlattenSnoc(parts[..used], parts[used]);
      assert parts[..used + 1] == parts[..used] + [parts[used]];
      file := file + parts[used];
      cnt := cnt + |parts[used]|;
      used := used + 1;
    }
    ok := true;
    assert Enough(fsize, parts, used);
  }

  lemma NeverEnough(fsize: nat, parts: seq<string>, used: nat, u: nat)
    requires used <= |parts| && |Flatten(parts[..used])| < fsize
    requires used == |parts| || parts[used] == ""
    ensures !Enough(fsize, parts, u)
  {
    if u <= used {
      MoreIsMore(parts, u, used);
    } else if u <= |parts| {
      assert parts[..u][used] == "";
    }
  }

  /** However the bytes of a file are cut into reads, the receive loop for its size succeeds, takes
      all of them and rebuilds the file. */
  lemma AnyChunkingRebuilds(file: string, parts: seq<string>, used: nat)
    requires Flatten(parts) == file && (forall r <- parts :: r != "") && used <= |parts|
    ensures |Flatten(parts[..used])| >= |file| <==> used == |parts|
    ensures used == |parts| ==> Flatten(parts[..used]) == file
  {
    assert parts == parts[..used] + parts[used..];
    FlattenConcat(parts[..used], parts[used..]);
    if used < |parts| {
      assert parts[used] in parts && parts[used..][0] == parts[used];
    }
  }

  // ----- the protocol -----

  /** What a run is about: the file, its name and attributes, and how much the link can hold. */
  datatype Job = Job(file: string, writable: bool, mtime: int, name: string, capacity: nat) {
    function Line(): string {
      Print(|file|, writable, mtime, name)
    }

    /** A size that fits the receiver's counter, and a header that fits its buffer and the link. */
    predicate Wf() {
      |file| < 0x8000_0000 && |Line()| < BUFLEN && 0 < |Line()| <= capacity
    }
  }

  datatype Sender = Opening | AwaitingAck | Sending | AwaitingClose | Done | Failed

  datatype Receiver = AwaitingHeader | Acking | Receiving | Closed | Aborted

  datatype State = State(
    sender: Sender, unread: string, pending: string, eof: bool,
    toReceiver: string, toSender: string,
    receiver: Receiver, fsize: nat, got: string)
  {
    predicate ReceiverGone() {
      receiver == Closed || receiver == Aborted
    }

    predicate Final() {
      (sender == Done || sender == Failed) && ReceiverGone()
    }
  }

  function Init(job: Job): State {
    State(Opening, job.file, "", false, "", "", AwaitingHeader, 0, "")
  }

  /** The steps of both sides. A write may go out in pieces and a read may bring any part of what is in
      the link; the header alone is assumed to arrive in one read. */
  datatype Step =
    | SendHeader
    | ReadAck(k: nat)
    | Fread
    | WritePart(k: nat)
    | WriteFails
    | EndOfData
    | ReadClose
    | ReadHeader
    | WriteAck
    | ReadData(k: nat)
    | ReadEof
    | Finish

  predicate Enabled(job: Job, s: State, step: Step) {
    match step
    case SendHeader => s.sender == Opening && |s.toReceiver| + |job.Line()| <= job.capacity
    case ReadAck(k) => s.sender == AwaitingAck && 0 < k <= |s.toSender| && k < BUFLEN
    case Fread => s.sender == Sending && s.pending == "" && !s.eof
    case WritePart(k) =>
      s.sender == Sending && !s.ReceiverGone() && 0 < k <= |s.pending| && |s.toReceiver| + k <= job.capacity
    case WriteFails => s.sender == Sending && s.ReceiverGone() && s.pending != ""
    case EndOfData => s.sender == Sending && s.pending == "" && s.eof
    case ReadClose => s.sender == AwaitingClose && (s.toSender != "" || s.ReceiverGone())
    case ReadHeader => s.receiver == AwaitingHeader && (s.toReceiver != "" || s.sender == Failed)
    case WriteAck => s.receiver == Acking
    case ReadData(k) =>
      s.receiver == Receiving && |s.got| < s.fsize && 0 < k <= |s.toReceiver| && k <= BUFLEN
    case ReadEof =>
      s.receiver == Receiving && |s.got| < s.fsize && s.toReceiver == "" && (s.sender == Done || s.sender == Failed)
    case Finish => s.receiver == Receiving && |s.got| >= s.fsize
  }

  function Apply(job: Job, s: State, step: Step): State
    requires Enabled(job, s, step)
  {
    match step
    case SendHeader => s.(sender := AwaitingAck, toReceiver := s.toReceiver + job.Line())
    case ReadAck(k) =>
      s.(sender := if s.toSender[..k] == ACK then Sending else Failed, toSender := s.toSender[k..])
    case Fread =>
      var buf := NextChunk(s.unread, BUFLEN);
      s.(pending := buf, unread := s.unread[|buf|..], eof := |buf| < BUFLEN)
    case WritePart(k) => s.(pending := s.pending[k..], toReceiver := s.toReceiver + s.pending[..k])
    case WriteFails => s.(sender := Failed)
    case EndOfData => s.(sender := AwaitingClose)
    case ReadClose => s.(sender := if s.toSender == "" then Done else Failed)
    case ReadHeader =>
      (match Scan(s.toReceiver)
       case File(size, _, _, _, _) => s.(receiver := Acking, fsize := size, toReceiver := "")
       case _ => s.(receiver := Aborted, toReceiver := ""))
    case WriteAck => s.(receiver := Receiving, toSender := s.toSender + ACK)
    case ReadData(k) => s.(got := s.got + s.toReceiver[..k], toReceiver := s.toReceiver[k..])
    case ReadEof => s.(receiver := Aborted)
    case Finish => s.(receiver := Closed)
  }

  // ----- safety -----

  /** Where the handshake stands before the acknowledgement has been read. */
  predicate Handshake(job: Job, s: State) {
    && s.unread == job.file && s.pending == "" && s.got == "" && !s.eof
    && (match s.receiver
        case AwaitingHeader => s.toSender == "" && s.toReceiver == if s.sender == Opening then "" else job.Line()
        case Acking => s.sender == AwaitingAck && s.toReceiver == "" && s.toSender == "" && s.fsize == |job.file|
        case Receiving => s.sender == AwaitingAck && s.toReceiver == "" && s.toSender == ACK && s.fsize == |job.file|
        case Closed =>
          s.sender == AwaitingAck && s.toReceiver == "" && s.toSender == ACK && s.fsize == |job.file| == 0
        case Aborted => false)
  }

  /** At every step the bytes received, in flight, being written and not yet read are the file. */
  predicate Transfer(job: Job, s: State) {
    && s.got + s.toReceiver + s.pending + s.unread == job.file
    && s.toSender == "" && s.fsize == |job.file|
    && (s.receiver == Receiving || s.receiver == Closed)
    && (s.receiver == Closed ==> |s.got| >= s.fsize)
    && (s.eof ==> s.unread == "")
    && (s.sender == AwaitingClose ==> s.eof && s.pending == "")
    && (s.sender == Done ==> s.eof && s.pending == "" && s.receiver == Closed)
  }

  /** An acknowledgement that came in parts makes the sender give up before any data. */
  predicate GivenUp(job: Job, s: State) {
    && s.unread == job.file && s.pending == "" && s.got == "" && s.toReceiver == "" && s.fsize == |job.file|
    && (s.receiver == Closed ==> job.file == "")
    && (s.receiver == Receiving || s.receiver == Closed || s.receiver == Aborted)
  }

  predicate Inv(job: Job, s: State) {
    match s.sender
    case Opening => s.receiver == AwaitingHeader && Handshake(job, s)
    case AwaitingAck => Handshake(job, s)
    case Failed => GivenUp(job, s)
    case _ => Transfer(job, s)
  }

  lemma InitHolds(job: Job)
    ensures Inv(job, Init(job))
  {
  }

  lemma HeaderIsScanned(job: Job)
    requires job.Wf()
    ensures Scan(job.Line()).File? && Scan(job.Line()).size == |job.file|
  {
    hide Print, Scan, SkipSpace, DateHigh, DateLow;
    ScanOfPrint(|job.file|, job.writable, job.mtime, job.name);
  }

  lemma ReadDataKeeps(job: Job, s: State, k: nat)
    requires Inv(job, s) && Enabled(job, s, ReadData(k))
    ensures Inv(job, Apply(job, s, ReadData(k)))
  {
    hide Print, Scan;
    var t := Apply(job, s, ReadData(k));
    if s.sender != AwaitingAck && s.sender != Failed {
      assert t.got + t.toReceiver == s.got + s.toReceiver;
      assert t.got + t.toReceiver + t.pending + t.unread == job.file;
    }
  }

  lemma ReceiverStepKeeps(job: Job, s: State, step: Step)
    requires job.Wf() && Inv(job, s) && Enabled(job, s, step)
    requires step.ReadHeader? || step.WriteAck? || step.ReadData? || step.ReadEof? || step.Finish?
    ensures Inv(job, Apply(job, s, step))
  {
    hide Print, Scan, Job.Line;
    HeaderIsScanned(job);
    if step.ReadData? {
      ReadDataKeeps(job, s, step.k);
    }
  }

  /** Moving bytes from one stage to the next keeps their sequence. */
  lemma StagesMove(job: Job, s: State, t: State)
    requires s.got + s.toReceiver + s.pending + s.unread == job.file
    requires t.got == s.got && (
               (t.toReceiver + t.pending == s.toReceiver + s.pending && t.unread == s.unread)
               || (t.toReceiver == s.toReceiver && s.pending == "" && t.pending + t.unread == s.unread))
    ensures t.got + t.toReceiver + t.pending + t.unread == job.file
  {
    if t.toReceiver == s.toReceiver && s.pending == "" {
      assert s.got + s.toReceiver + s.pending == s.got + s.toReceiver;
      Associative(t.got + t.toReceiver, t.pending, t.unread);
    } else {
      Associative(s.got, s.toReceiver, s.pending);
      Associative(t.got, t.toReceiver, t.pending);
    }
  }

  /** A receiver that closed in a transfer has everything. */
  lemma ClosedHasAll(job: Job, s: State)
    requires Transfer(job, s) && s.receiver == Closed
    ensures s.toReceiver == s.pending == s.unread == "" && s.got == job.file
  {
    assert |s.got| + |s.toReceiver| + |s.pending| + |s.unread| == |job.file|;
  }

  lemma SenderStepKeeps(job: Job, s: State, step: Step)
    requires job.Wf() && Inv(job, s) && Enabled(job, s, step)
    requires !(step.ReadHeader? || step.WriteAck? || step.ReadData? || step.ReadEof? || step.Finish?)
    ensures Inv(job, Apply(job, s, step))
  {
    hide Print, Scan;
    var t := Apply(job, s, step);
    if step.Fread? || step.WritePart? {
      StagesMove(job, s, t);
    } else if step.WriteFails? {
      ClosedHasAll(job, s);
    }
  }

  lemma StepKeeps(job: Job, s: State, step: Step)
    requires job.Wf() && Inv(job, s) && Enabled(job, s, step)
    ensures Inv(job, Apply(job, s, step))
  {
    if step.ReadHeader? || step.WriteAck? || step.ReadData? || step.ReadEof? || step.Finish? {
      ReceiverStepKeeps(job, s, step);
    } else {
      SenderStepKeeps(job, s, step);
    }
  }

  predicate EnabledRun(job: Job, s: State, steps: seq<Step>)
    decreases |steps|
  {
    steps == [] || (Enabled(job, s, steps[0]) && EnabledRun(job, Apply(job, s, steps[0]), steps[1..]))
  }

  function RunFrom(job: Job, s: State, steps: seq<Step>): State
    requires EnabledRun(job, s, steps)
    decreases |steps|
  {
    if steps == [] then s else RunFrom(job, Apply(job, s, steps[0]), steps[1..])
  }

  lemma {:induction false} RunKeeps(job: Job, s: State, steps: seq<Step>)
    requires job.Wf() && Inv(job, s) && EnabledRun(job, s, steps)
    ensures Inv(job, RunFrom(job, s, steps))
    decreases |steps|
  {
    hide Inv, Enabled, Apply;
    if steps != [] {
      StepKeeps(job, s, steps[0]);
      RunKeeps(job, Apply(job, s, steps[0]), steps[1..]);
    }
  }

  /** After any interleaving and any cutting of reads and writes: what was received is a prefix of the
      file, nothing but the header was put into the link before the acknowledgement was read, what is
      received, in flight and unsent is always the file, nothing comes back behind the acknowledgement, so
      that the last read finds only the close, and a sender that is done leaves a receiver
      that has the whole file. */
  lemma TransferIsSafe(job: Job, steps: seq<Step>)
    requires job.Wf() && EnabledRun(job, Init(job), steps)
    ensures var s := RunFrom(job, Init(job), steps);
            && s.got <= job.file
            && (s.sender == Opening || s.sender == AwaitingAck ==>
                  (s.toReceiver == "" || s.toReceiver == job.Line()) && s.pending == "" && s.unread == job.file)
            && (s.sender == Sending || s.sender == AwaitingClose ==>
                  s.got + s.toReceiver + s.pending + s.unread == job.file)
            && (s.sender == Sending || s.sender == AwaitingClose ==> s.toSender == "")
            && (s.sender == Done ==> s.receiver == Closed && s.got == job.file)
            && (s.sender == Failed ==> s.got == "")
  {
    InitHolds(job);
    RunKeeps(job, Init(job), steps);
    var s := RunFrom(job, Init(job), steps);
    hide Print, Scan;
    if s.sender == Done {
      ClosedHasAll(job, s);
    }
  }

  // ----- progress -----

  function SenderRank(job: Job, s: State): nat {
    match s.sender
    case Opening => |job.Line()| + 4
    case AwaitingAck => 3
    case Sending => 2
    case AwaitingClose => 1
    case _ => 0
  }

  function ReceiverRank(s: State): nat {
    match s.receiver
    case AwaitingHeader => 8
    case Acking => 7
    case Receiving => 1
    case _ => 0
  }

  /** Bytes weigh more the further they are from the receiver's file. */
  function Measure(job: Job, s: State): nat {
    SenderRank(job, s) + ReceiverRank(s) + 3 * |s.unread| + 2 * |s.pending| + |s.toReceiver| + |s.toSender|
    + if s.eof then 0 else 1
  }

  lemma StepDecreases(job: Job, s: State, step: Step)
    requires job.Wf() && Inv(job, s) && Enabled(job, s, step)
    ensures Measure(job, Apply(job, s, step)) < Measure(job, s)
  {
    hide Print, Scan;
    HeaderIsScanned(job);
  }

  /** A state that is not final has a step. */
  lemma SomeStepEnabled(job: Job, s: State) returns (step: Step)
    requires job.Wf() && Inv(job, s) && !s.Final()
    ensures Enabled(job, s, step)
    ensures step.ReadAck? ==> step.k == |s.toSender|
  {
    hide Print, Scan;
    if s.sender == Opening {
      step := SendHeader;
    } else if s.receiver == AwaitingHeader {
      step := ReadHeader;
    } else if s.receiver == Acking {
      step := WriteAck;
    } else if s.sender == AwaitingAck {
      step := ReadAck(|s.toSender|);
    } else if s.receiver == Receiving {
      if |s.got| >= s.fsize {
        step := Finish;
      } else if s.toReceiver != "" {
        step := ReadData(1);
      } else if s.sender == Failed {
        step := ReadEof;
      } else if s.pending != "" {
        step := WritePart(1);
      } else {
        step := if s.eof then EndOfData else Fread;
        assert s.got + s.toReceiver + s.pending + s.unread == s.got + s.unread;
      }
    } else if s.sender == Sending {
      ClosedHasAll(job, s);
      step := if s.eof then EndOfData else Fread;
    } else {
      step := ReadClose;
    }
  }

  /** Every run ends: none is longer than the measure of its first state. */
  lemma {:induction false} RunsAreBounded(job: Job, s: State, steps: seq<Step>)
    requires job.Wf() && Inv(job, s) && EnabledRun(job, s, steps)
    ensures |steps| <= Measure(job, s)
    decreases |steps|
  {
    hide Inv, Enabled, Apply, Measure;
    if steps != [] {
      StepKeeps(job, s, steps[0]);
      StepDecreases(job, s, steps[0]);
      RunsAreBounded(job, Apply(job, s, steps[0]), steps[1..]);
    }
  }

  /** A run that cannot go on has ended on both sides: with the whole file on the other side when the
      sender is done, and with nothing when it gave up. */
  lemma StuckRunsAreFinal(job: Job, steps: seq<Step>)
    requires job.Wf() && EnabledRun(job, Init(job), steps)
    requires forall step :: !Enabled(job, RunFrom(job, Init(job), steps), step)
    ensures var s := RunFrom(job, Init(job), steps);
            s.Final() && if s.sender == Done then s.receiver == Closed && s.got == job.file else s.got == ""
  {
    InitHolds(job);
    RunKeeps(job, Init(job), steps);
    var s := RunFrom(job, Init(job), steps);
    TransferIsSafe(job, steps);
    if !s.Final() {
      var step := SomeStepEnabled(job, s);
    }
  }

  /** The acknowledgement is never read in parts. */
  predicate WholeAcks(job: Job, s: State, steps: seq<Step>)
    requires EnabledRun(job, s, steps)
    decreases |steps|
  {
    steps == []
    || ((steps[0].ReadAck? ==> steps[0].k == |s.toSender|)
        && WholeAcks(job, Apply(job, s, steps[0]), steps[1..]))
  }

  /** A step makes the sender give up exactly when it reads a part of the acknowledgement. */
  lemma GivesUpExactly(job: Job, s: State, step: Step)
    requires job.Wf() && Inv(job, s) && Enabled(job, s, step) && s.sender != Failed
    ensures Apply(job, s, step).sender == Failed <==> step.ReadAck? && step.k < |s.toSender|
  {
    hide Print, Scan;
    if Transfer(job, s) && s.receiver == Closed {
      ClosedHasAll(job, s);
    }
  }

  lemma {:induction false} WholeAcksNeverFail(job: Job, s: State, steps: seq<Step>)
    requires job.Wf() && Inv(job, s) && EnabledRun(job, s, steps) && s.sender != Failed
    requires WholeAcks(job, s, steps)
    ensures RunFrom(job, s, steps).sender != Failed
    decreases |steps|
  {
    hide Inv, Enabled, Apply;
    if steps != [] {
      StepKeeps(job, s, steps[0]);
      GivesUpExactly(job, s, steps[0]);
      WholeAcksNeverFail(job, Apply(job, s, steps[0]), steps[1..]);
    }
  }

  /** So with the acknowledgement in one read every run that cannot go on has both sides closed and the
      file received, empty files included. */
  lemma EveryTransferCompletes(job: Job, steps: seq<Step>)
    requires job.Wf() && EnabledRun(job, Init(job), steps) && WholeAcks(job, Init(job), steps)
    requires forall step :: !Enabled(job, RunFrom(job, Init(job), steps), step)
    ensures var s := RunFrom(job, Init(job), steps);
            s.sender == Done && s.receiver == Closed && s.got == job.file
  {
    StuckRunsAreFinal(job, steps);
    InitHolds(job);
    WholeAcksNeverFail(job, Init(job), steps);
  }
}
