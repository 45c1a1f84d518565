/** What one call of the interrupt handler of pcmcia/ircard_cs.c services, read off the device's answers
    alone, and what that does to the selected bank and the length of the queue. */
module IrCardEvents {
  import opened Bytes
  import opened IrCardChip

  const TX_STAT_FIFO_UNDR: Byte := 0x08
  const TX_STAT_EOM: Byte := 0x04

  const MSR_RX_COND_ID: Byte := 0x08
  const MSR_RX_DATA_ID: Byte := 0x0a
  const MSR_TX_COND_ID: Byte := 0x0e

  const RX_STAT_FIFO_OVRN: Byte := 0x20
  const RX_STAT_FRAME_ERROR: Byte := 0x40
  const RX_STAT_ABORT: Byte := 0x80

  const MAX_SPINS := 1002
  const MAX_EVENTS := 12

  // ----- what the answers say -----

  /** The interrupt cause in a master status. */
  function IdOf(msr: Byte): Byte {
    msr / 2 % 8 * 2
  }

  predicate Underran(stat: Byte) {
    stat / TX_STAT_FIFO_UNDR % 2 == 1
  }

  predicate EndOfMessage(stat: Byte) {
    stat / TX_STAT_EOM % 2 == 1
  }

  /** Where the polling that began at answer `from` stops, seen from answer `k`: behind the first end of
      the message or after MAX_SPINS answers. */
  function AfterPolling(answers: seq<Byte>, from: nat, k: nat): (end: nat)
    requires from <= k < from + MAX_SPINS
    ensures k < end <= from + MAX_SPINS
    ensures forall j :: k <= j < end - 1 ==> !EndOfMessage(Answer(answers, j))
    ensures end == from + MAX_SPINS || EndOfMessage(Answer(answers, end - 1))
    decreases from + MAX_SPINS - k
  {
    if EndOfMessage(Answer(answers, k)) || k + 1 == from + MAX_SPINS then k + 1
    else AfterPolling(answers, from, k + 1)
  }

  /** Where reading the transmit status from answer `k` stops. An underrun is not waited for. */
  function AfterStatus(answers: seq<Byte>, k: nat): (end: nat)
    ensures k < end <= k + MAX_SPINS
  {
    if Underran(Answer(answers, k)) then k + 1 else AfterPolling(answers, k, k)
  }

  /** The receive ring's frame pointer, low byte first. */
  function RingPtr(answers: seq<Byte>, k: nat): (at: nat)
    ensures at < SHMEM_TX_START
  {
    Answer(answers, k) + Answer(answers, k + 1) % 0x40 * 256
  }

  /** The receive that reads from answer `k` finds an overrun and neither an abort nor a frame error. */
  predicate Overruns(answers: seq<Byte>, k: nat) {
    RingPtr(answers, k) != 0 && Answer(answers, k + 2) / RX_STAT_FIFO_OVRN == 1
  }

  function AfterReceive(answers: seq<Byte>, k: nat): nat {
    if RingPtr(answers, k) == 0 then k + 2 else k + 4
  }

  /** The cause is what MSR_ID_MASK leaves of a master status. */
  lemma IdMask(b: bv8)
    ensures IdOf(b as int) == (b & 0x0e) as int
  {
    var c := b >> 1;
    assert b as int / 2 == c as int;
    assert c as int % 8 == (c & 7) as int;
    assert (c & 7) as int * 2 == (b & 0x0e) as int;
  }

  lemma TxStatBits(b: bv8)
    ensures Underran(b as int) <==> b & 0x08 != 0
    ensures EndOfMessage(b as int) <==> b & 0x04 != 0
  {
    assert b as int / 8 == (b >> 3) as int && b as int / 4 == (b >> 2) as int;
  }

  /** An overrun in a ring that is not empty, and neither abort nor frame error. */
  lemma RxStatBits(answers: seq<Byte>, k: nat, b: bv8)
    requires Answer(answers, k + 2) == b as int
    ensures Overruns(answers, k)
            <==> RingPtr(answers, k) != 0 && b & 0x80 == 0 && b & 0x40 == 0 && b & 0x20 != 0
  {
    hide RingPtr;
    assert b as int / 0x20 == (b >> 5) as int;
  }

  /** The high byte of the ring pointer has six bits. */
  lemma RingPtrBits(answers: seq<Byte>, k: nat, high: bv8)
    requires Answer(answers, k + 1) == high as int
    ensures RingPtr(answers, k) == Answer(answers, k) + 256 * (high & 0x3f) as int
  {
    assert high as int % 0x40 == (high & 0x3f) as int;
  }

  // ----- the causes -----

  /** What servicing one interrupt cause did. */
  datatype Service = Transmitted | Received(overrun: bool) | Ignored

  function CauseAt(answers: seq<Byte>, k: nat, id: Byte): Service {
    if id == MSR_TX_COND_ID then Transmitted
    else if id == MSR_RX_DATA_ID || id == MSR_RX_COND_ID then Received(Overruns(answers, k))
    else Ignored
  }

  function AfterCause(answers: seq<Byte>, k: nat, id: Byte): (end: nat)
    ensures end >= k
  {
    if id == MSR_TX_COND_ID then AfterStatus(answers, k)
    else if id == MSR_RX_DATA_ID || id == MSR_RX_COND_ID then AfterReceive(answers, k)
    else k
  }

  /** The causes serviced when the next master status is answer `k` and `left` more may be serviced. */
  function Causes(answers: seq<Byte>, k: nat, left: nat): (served: seq<Service>)
    ensures |served| <= left
    decreases left
  {
    var id := IdOf(Answer(answers, k));
    if left == 0 || id == 0 then []
    else [CauseAt(answers, k + 1, id)] + Causes(answers, AfterCause(answers, k + 1, id), left - 1)
  }

  /** And how many answers have been read then. */
  function AfterCauses(answers: seq<Byte>, k: nat, left: nat): nat
    decreases left
  {
    var id := IdOf(Answer(answers, k));
    if left == 0 then k
    else if id == 0 then k + 1
    else AfterCauses(answers, AfterCause(answers, k + 1, id), left - 1)
  }

  /** Causes by their numbers: 0x0e is a transmission, 0x08 and 0x0a are receives, and the others are
      passed over without a further read. */
  lemma CausesByNumber(answers: seq<Byte>, k: nat)
    ensures CauseAt(answers, k, 0x0e) == Transmitted
    ensures CauseAt(answers, k, 0x08) == CauseAt(answers, k, 0x0a) == Received(Overruns(answers, k))
    ensures forall id: Byte :: id !in {0x08, 0x0a, 0x0e} ==>
              CauseAt(answers, k, id) == Ignored && AfterCause(answers, k, id) == k
  {
  }

  lemma CausesUnfold(answers: seq<Byte>, k: nat, left: nat)
    requires left > 0
    ensures var id := IdOf(Answer(answers, k));
            var next := AfterCause(answers, k + 1, id);
            if id == 0 then Causes(answers, k, left) == [] && AfterCauses(answers, k, left) == k + 1
            else
              && Causes(answers, k, left) == [CauseAt(answers, k + 1, id)] + Causes(answers, next, left - 1)
              && AfterCauses(answers, k, left) == AfterCauses(answers, next, left - 1)
  {
  }

  /** The handler whose first status is answer `from` has serviced `done` and comes to answer `at`. */
  ghost predicate Reaches(answers: seq<Byte>, from: nat, done: seq<Service>, at: nat) {
    && |done| <= MAX_EVENTS
    && Causes(answers, from, MAX_EVENTS) == done + Causes(answers, at, MAX_EVENTS - |done|)
    && AfterCauses(answers, from, MAX_EVENTS) == AfterCauses(answers, at, MAX_EVENTS - |done|)
  }

  lemma ReachesStart(answers: seq<Byte>, from: nat)
    ensures Reaches(answers, from, [], from)
  {
    assert [] + Causes(answers, from, MAX_EVENTS) == Causes(answers, from, MAX_EVENTS);
  }

  lemma ReachesNext(answers: seq<Byte>, from: nat, done: seq<Service>, at: nat)
    requires Reaches(answers, from, done, at) && |done| < MAX_EVENTS && IdOf(Answer(answers, at)) != 0
    ensures var id := IdOf(Answer(answers, at));
            Reaches(answers, from, done + [CauseAt(answers, at + 1, id)], AfterCause(answers, at + 1, id))
  {
    hide Causes, AfterCauses, CauseAt, AfterCause, IdOf, Answer;
    var id := IdOf(Answer(answers, at));
    CausesUnfold(answers, at, MAX_EVENTS - |done|);
    Associative(done, [CauseAt(answers, at + 1, id)],
                Causes(answers, AfterCause(answers, at + 1, id), MAX_EVENTS - |done| - 1));
  }

  lemma ReachesEnd(answers: seq<Byte>, from: nat, done: seq<Service>, at: nat)
    requires Reaches(answers, from, done, at)
    requires |done| == MAX_EVENTS || IdOf(Answer(answers, at)) == 0
    ensures Causes(answers, from, MAX_EVENTS) == done
    ensures AfterCauses(answers, from, MAX_EVENTS) == if |done| == MAX_EVENTS then at else at + 1
  {
    hide IdOf, Answer;
    assert done + [] == done;
  }

  function Sent(served: seq<Service>): nat {
    if served == [] then 0
    else Sent(served[..|served| - 1]) + if served[|served| - 1].Transmitted? then 1 else 0
  }

  // ----- bank, queue length and stray accesses along the way -----

  datatype Line = Line(bank: BankNo, len: int, strays: seq<Reg>)

  /** The next master status is read under whatever bank is selected. */
  function Reread(s: Line): Line {
    s.(strays := s.strays + if s.bank == 0 then [] else [MSR])
  }

  /** A completion goes back to bank 0 if it sends or starts receiving, a receive only for an overrun. */
  function Serviced(s: Line, done: Service, stackEmpty: bool): Line {
    match done
    case Transmitted =>
      var over := s.len == 1 && stackEmpty;
      Line(if s.len != 1 || stackEmpty then 0 else s.bank, s.len - 1,
           s.strays + if s.bank == 0 then []
                      else if over then [MISC, RESET, TX_CTRL1, RESET, RESET]
                      else [MISC, RESET])
    case Received(overrun) => s.(bank := if overrun then 0 else 1)
    case Ignored => s
  }

  /** After the causes `served`, with the stack's answers `stackEmpty`, before the next status is read. */
  function Along(s: Line, served: seq<Service>, stackEmpty: nat -> bool): Line
    decreases |served|
  {
    if served == [] then s
    else
      var n := |served| - 1;
      Serviced(Reread(Along(s, served[..n], stackEmpty)), served[n], stackEmpty(n))
  }

  /** When the loop ends: the twelfth cause is not followed by another read. */
  function AtEnd(s: Line, served: seq<Service>, stackEmpty: nat -> bool): Line {
    var t := Along(s, served, stackEmpty);
    if |served| < MAX_EVENTS then Reread(t) else t
  }

  lemma AlongNothing(s: Line, stackEmpty: nat -> bool)
    ensures Along(s, [], stackEmpty) == s && Sent([]) == 0 && BanksKept([])
  {
  }

  lemma AlongSnoc(s: Line, served: seq<Service>, done: Service, stackEmpty: nat -> bool)
    ensures Along(s, served + [done], stackEmpty)
            == Serviced(Reread(Along(s, served, stackEmpty)), done, stackEmpty(|served|))
    ensures Sent(served + [done]) == Sent(served) + if done.Transmitted? then 1 else 0
  {
    assert (served + [done])[..|served|] == served;
  }

  /** Every completion takes one from the length of the queue, whether or not anything was queued. */
  lemma {:induction false} LengthAlong(s: Line, served: seq<Service>, stackEmpty: nat -> bool)
    ensures Along(s, served, stackEmpty).len == s.len - Sent(served)
    decreases |served|
  {
    if served != [] {
      LengthAlong(s, served[..|served| - 1], stackEmpty);
    }
  }

  // ----- when every access hits its bank -----

  /** No receive but an overrun, except as the twelfth cause. */
  predicate BanksKept(served: seq<Service>) {
    forall k :: 0 <= k < |served| && k < MAX_EVENTS - 1 ==> served[k] != Received(false)
  }

  predicate OnlyOverruns(served: seq<Service>) {
    Received(false) !in served
  }

  lemma {:induction false} OverrunsKeepBank(s: Line, served: seq<Service>, stackEmpty: nat -> bool)
    requires s.bank == 0 && OnlyOverruns(served)
    ensures Along(s, served, stackEmpty).bank == 0 && Along(s, served, stackEmpty).strays == s.strays
    decreases |served|
  {
    if served != [] {
      var n := |served| - 1;
      assert served[n] in served;
      OverrunsKeepBank(s, served[..n], stackEmpty);
    }
  }

  lemma {:induction false} StraysGrow(s: Line, served: seq<Service>, stackEmpty: nat -> bool)
    requires s.bank == 0 && !OnlyOverruns(served)
    ensures var t := Along(s, served, stackEmpty);
            if OnlyOverruns(served[..|served| - 1]) then t.bank == 1 && t.strays == s.strays
            else |t.strays| > |s.strays|
    decreases |served|
  {
    var n := |served| - 1;
    if OnlyOverruns(served[..n]) {
      OverrunsKeepBank(s, served[..n], stackEmpty);
      assert served == served[..n] + [served[n]];
    } else {
      StraysGrow(s, served[..n], stackEmpty);
    }
  }

  lemma BanksKeptMeans(served: seq<Service>)
    requires |served| <= MAX_EVENTS
    ensures BanksKept(served) <==>
            OnlyOverruns(served) || (|served| == MAX_EVENTS && OnlyOverruns(served[..|served| - 1]))
  {
    if BanksKept(served) && |served| == MAX_EVENTS {
      assert OnlyOverruns(served[..|served| - 1]);
    }
    if !BanksKept(served) {
      var k :| 0 <= k < |served| && k < MAX_EVENTS - 1 && served[k] == Received(false);
      assert k < |served| - 1 ==> served[..|served| - 1][k] == served[k];
    }
  }

  /** Entered under bank 0, the handler makes no stray access exactly when no receive short of the
      twelfth cause ends without an overrun. */
  lemma NothingStraysExactly(s: Line, served: seq<Service>, stackEmpty: nat -> bool)
    requires s.bank == 0 && |served| <= MAX_EVENTS
    ensures AtEnd(s, served, stackEmpty).strays == s.strays <==> BanksKept(served)
  {
    hide Along, BanksKept, OnlyOverruns;
    BanksKeptMeans(served);
    if OnlyOverruns(served) {
      OverrunsKeepBank(s, served, stackEmpty);
    } else {
      StraysGrow(s, served, stackEmpty);
    }
  }

  // ----- when the queue survives -----

  /** The device tells the truth: read where the master status is, under bank 0, the transmit condition
      comes only while a transmission is going on. The length of the queue is 0 exactly when none is,
      since a completion too many starts one and makes the length negative. */
  predicate Truthful(s: Line, served: seq<Service>, stackEmpty: nat -> bool) {
    forall k :: 0 <= k < |served| && served[k].Transmitted? && Along(s, served[..k], stackEmpty).bank == 0
                ==> Along(s, served[..k], stackEmpty).len != 0
  }

  /** At cause `k` another register is read for the master status and taken for a completion, with
      nothing queued. */
  predicate FalseCompletion(s: Line, served: seq<Service>, stackEmpty: nat -> bool, k: nat)
    requires k < |served|
  {
    var t := Along(s, served[..k], stackEmpty);
    served[k].Transmitted? && t.bank != 0 && t.len == 0
  }

  lemma PrefixSent(served: seq<Service>, k: nat)
    requires k < |served|
    ensures Sent(served[..k + 1]) == Sent(served[..k]) + if served[k].Transmitted? then 1 else 0
  {
    assert served[..k + 1][..k] == served[..k];
  }

  lemma {:induction false} SentGrows(served: seq<Service>, k: nat)
    requires k <= |served|
    ensures Sent(served[..k]) <= Sent(served)
    decreases |served|
  {
    if k < |served| {
      SentGrows(served[..|served| - 1], k);
      assert served[..|served| - 1][..k] == served[..k];
    } else {
      assert served[..k] == served;
    }
  }

  /** More completions than frames: the first one too many finds the queue empty. */
  lemma {:induction false} FirstTooMany(served: seq<Service>, len: nat) returns (k: nat)
    requires Sent(served) > len
    ensures k < |served| && served[k].Transmitted? && Sent(served[..k]) == len
    decreases |served|
  {
    var n := |served| - 1;
    if Sent(served[..n]) > len {
      k := FirstTooMany(served[..n], len);
      assert served[..n][..k] == served[..k];
    } else {
      k := n;
    }
  }

  /** A device that reports completions truthfully is taken to report more of them than frames are queued
      exactly when a stray answer passes for one. */
  lemma OnlyStrayAnswersBreak(s: Line, served: seq<Service>, stackEmpty: nat -> bool)
    requires s.len >= 0 && Truthful(s, served, stackEmpty)
    ensures Sent(served) > s.len
            <==> exists k :: 0 <= k < |served| && FalseCompletion(s, served, stackEmpty, k)
  {
    hide Along, Sent;
    if Sent(served) > s.len {
      var k := FirstTooMany(served, s.len);
      LengthAlong(s, served[..k], stackEmpty);
      assert FalseCompletion(s, served, stackEmpty, k);
    }
    if k :| 0 <= k < |served| && FalseCompletion(s, served, stackEmpty, k) {
      LengthAlong(s, served[..k], stackEmpty);
      PrefixSent(served, k);
      SentGrows(served, k + 1);
    }
  }

  /** So with the banks kept there are never more completions than frames. */
  lemma KeptBanksKeepQueue(s: Line, served: seq<Service>, stackEmpty: nat -> bool)
    requires s.bank == 0 && s.len >= 0 && |served| <= MAX_EVENTS && Truthful(s, served, stackEmpty)
    requires BanksKept(served)
    ensures Sent(served) <= s.len
  {
    hide Along, Sent, Truthful;
    forall k | 0 <= k < |served|
      ensures !FalseCompletion(s, served, stackEmpty, k)
    {
      OverrunsKeepBank(s, served[..k], stackEmpty);
    }
    OnlyStrayAnswersBreak(s, served, stackEmpty);
  }

  // ----- two inputs that go wrong -----

  /** A receive with nothing in the ring is enough: the next status is read under bank 1. */
  lemma ReceiveMakesReadStray(answers: seq<Byte>, k: nat, len: int, stackEmpty: nat -> bool)
    requires IdOf(Answer(answers, k)) == MSR_RX_COND_ID && RingPtr(answers, k + 1) == 0
    requires IdOf(Answer(answers, k + 3)) == 0
    ensures Causes(answers, k, MAX_EVENTS) == [Received(false)]
    ensures AtEnd(Line(0, len, []), [Received(false)], stackEmpty).strays == [MSR]
  {
    hide Causes, AfterCauses;
    CausesUnfold(answers, k, MAX_EVENTS);
    CausesUnfold(answers, k + 3, MAX_EVENTS - 1);
    assert [Received(false)][..0] == [];
  }

  /** And when the register read there, the frame address, happens to hold 0xff, an empty queue is told
      of a completion. The device was truthful: it was asked under bank 1. */
  lemma StrayAnswerIsTakenForCompletion(answers: seq<Byte>, strays: seq<Reg>, stackEmpty: nat -> bool)
    requires answers == [MSR_RX_COND_ID, 0, 0, 0xff, TX_STAT_EOM]
    ensures Causes(answers, 0, MAX_EVENTS) == [Received(false), Transmitted]
    ensures Sent([Received(false), Transmitted]) == 1
    ensures Truthful(Line(0, 0, strays), [Received(false), Transmitted], stackEmpty)
    ensures AtEnd(Line(0, 0, strays), [Received(false), Transmitted], stackEmpty)
            == Line(0, -1, strays + [MSR, MISC, RESET])
  {
    hide Causes, AfterCauses;
    CausesUnfold(answers, 0, MAX_EVENTS);
    CausesUnfold(answers, 3, MAX_EVENTS - 1);
    CausesUnfold(answers, 5, MAX_EVENTS - 2);
    var served := [Received(false), Transmitted];
    assert served[..0] == [] && served[..1] == [Received(false)];
    assert [Received(false)][..0] == [];
  }
}
