/** The FIR driver of pcmcia/ircard_cs.c: its transmit queue in shared memory, the register protocol
    around it, the interrupt loop and speed changes. Every method is one atomic step under the lock. */
module IrCard {
  import opened Bytes
  import opened IrCardChip
  import opened IrCardEvents

  const MAX_WINDOW := 8

  const MISC_DMA: Byte := 0xc0
  const TX_CTRL1_SEND: Byte := 0xa0
  const TX_CTRL2_SEND: Byte := 0x41
  const RESET_RX_SPEC_BITS: Byte := 0x30
  const RESET_RX_RFP: Byte := 0x40
  const RESET_TX_SPEC_BITS: Byte := 0x50

  datatype FrameCb = FrameCb(start: int, len: int) {
    function End(): int {
      start + len
    }
  }

  /** The slots lie back to back from the start of the transmit region to `tail`, within the window,
      and the bytes behind each are its frame. */
  ghost predicate Laid(slots: seq<FrameCb>, tail: int, membase: nat, shm: seq<Byte>, turn: seq<seq<Byte>>) {
    && |slots| == |turn| && |shm| == SHMEM_SIZE
    && membase + SHMEM_TX_START <= tail <= membase + SHMEM_SIZE
    && tail == (if slots == [] then membase + SHMEM_TX_START else slots[|slots| - 1].End())
    && (slots != [] ==> slots[0].start == membase + SHMEM_TX_START)
    && (forall j, k :: 0 <= j < k < |slots| && k == j + 1 ==> slots[k].start == slots[j].End())
    && (forall k :: 0 <= k < |slots| ==> Holds(slots[k], tail, membase, shm, turn[k]))
  }

  ghost predicate Holds(slot: FrameCb, tail: int, membase: nat, shm: seq<Byte>, frame: seq<Byte>)
    requires |shm| == SHMEM_SIZE && tail <= membase + SHMEM_SIZE
  {
    && membase + SHMEM_TX_START <= slot.start && 0 <= slot.len < 8192 && slot.End() <= tail
    && shm[slot.start - membase..slot.End() - membase] == frame
  }

  /** Writing a frame at `tail` and a slot for it leaves every earlier frame where it was. */
  lemma LaidGrows(slots: seq<FrameCb>, tail: int, membase: nat, was: seq<Byte>, now: seq<Byte>,
                  turn: seq<seq<Byte>>, frame: seq<Byte>)
    requires Laid(slots, tail, membase, was, turn)
    requires |frame| < 8192 && tail + |frame| <= membase + SHMEM_SIZE
    requires now == was[..tail - membase] + frame + was[tail - membase + |frame|..]
    ensures Laid(slots + [FrameCb(tail, |frame|)], tail + |frame|, membase, now, turn + [frame])
  {
    var more := slots + [FrameCb(tail, |frame|)];
    forall k | 0 <= k < |more|
      ensures Holds(more[k], tail + |frame|, membase, now, (turn + [frame])[k])
    {
      if k < |slots| {
        assert Holds(slots[k], tail, membase, was, turn[k]);
        var from, to := slots[k].start - membase, slots[k].End() - membase;
        assert now[from..to] == was[from..to];
      } else {
        assert now[tail - membase..tail - membase + |frame|] == frame;
      }
    }
  }

  /** So the slots are pairwise disjoint, in the order of their frames. */
  lemma {:induction false} SlotsDisjoint(slots: seq<FrameCb>, tail: int, membase: nat, shm: seq<Byte>,
                                         turn: seq<seq<Byte>>, j: nat, k: nat)
    requires Laid(slots, tail, membase, shm, turn) && j < k < |slots|
    ensures slots[j].End() <= slots[k].start
    decreases k
  {
    if j + 1 < k {
      SlotsDisjoint(slots, tail, membase, shm, turn, j, k - 1);
      assert Holds(slots[k - 1], tail, membase, shm, turn[k - 1]);
    }
  }

  class Driver {
    const chip: Chip
    const membase: nat

    // tx_q
    const queue: array<FrameCb>
    var ptr: int
    var len: int
    var free: int
    var tail: int

    var tbusy: bool
    var baudrate: nat
    var firXmit: bool

    /** Every frame ever taken, and how many of them came before the last reset of the queue. */
    ghost var accepted: seq<seq<Byte>>
    ghost var base: nat

    /** Taken but not yet reported complete; the first of them is being sent. */
    ghost function Pending(): seq<seq<Byte>>
      requires 0 <= base + ptr <= |accepted|
      reads this
    {
      accepted[base + ptr..]
    }

    /** The frames taken since the last reset. */
    ghost function Turn(): seq<seq<Byte>>
      requires base <= |accepted|
      reads this
    {
      accepted[base..]
    }

    /** Counters in step, and the slots in use describe, and the shared memory holds, exactly the
        frames of the turn, sent or not. */
    ghost predicate QueueOk()
      reads this, queue, chip.shm
    {
      && chip.Valid() && queue.Length == MAX_WINDOW
      && 0 <= len && 0 <= ptr && ptr + len == free <= MAX_WINDOW
      && base + free == |accepted|
      && Laid(queue[..free], tail, membase, chip.shm[..], Turn())
    }

    /** And what went on the air is what was taken, in order, up to and including the frame now being
        sent. */
    ghost predicate Valid()
      reads this, queue, chip`wire, chip.shm
    {
      QueueOk() && chip.wire == accepted[..base + ptr + if len > 0 then 1 else 0]
    }

    /** Enough to carry on after a completion with nothing queued, which leaves the length negative. */
    ghost predicate Sound()
      reads this, queue, chip`wire, chip.shm
    {
      chip.Valid() && queue.Length == MAX_WINDOW && (len >= 0 ==> Valid())
    }

    ghost function Now(): Line
      reads this`len, chip`mcr, chip`strays
    {
      Line(chip.Bank(), len, chip.strays)
    }

    constructor (membase: nat, answers: seq<Byte>)
      ensures Valid() && fresh(chip) && fresh(chip.shm) && fresh(queue)
      ensures accepted == [] && baudrate == 9600 && !chip.fir && !firXmit && !tbusy && chip.strays == []
      ensures len == 0 && chip.answers == answers && chip.taken == 0
    {
      chip := new Chip(answers);
      this.membase := membase;
      queue := new FrameCb[MAX_WINDOW](_ => FrameCb(0, 0));
      ptr, len, free := 0, 0, 0;
      tail := SHMEM_TX_START + membase;
      tbusy, baudrate, firXmit := false, 9600, false;
      accepted, base := [], 0;
    }

    /** There is a free slot and room behind the last frame: what MAX_WINDOW and the size of the
        region promise for the frames between two resets. */
    ghost predicate HasRoom(n: nat)
      reads this
    {
      free < MAX_WINDOW && n < 8192 && tail + n <= membase + SHMEM_SIZE
    }

    /** Takes a frame, and starts sending when nothing is being sent. A busy driver refuses. */
    method HardXmit(frame: seq<Byte>) returns (ok: bool)
      requires Valid() && HasRoom(|frame|)
      modifies this, queue, chip, chip.shm
      ensures Valid()
      ensures ok == !old(tbusy)
      ensures accepted == if ok then old(accepted) + [frame] else old(accepted)
      ensures ok ==> Pending() == old(Pending()) + [frame]
      ensures base == old(base) && ptr == old(ptr) && len == old(len) + if ok then 1 else 0
      ensures ok ==> free == old(free) + 1 && tail == old(tail) + |frame|
      ensures ok && old(len) == 0 ==> chip.Enables() == MCR_INTR_EN + MCR_TX_EN && chip.Bank() == 0
      ensures chip.strays == old(chip.strays) && chip.fir == old(chip.fir)
      ensures tbusy == old(tbusy) && baudrate == old(baudrate) && firXmit == old(firXmit)
      ensures chip.commands == old(chip.commands) && (ok ==> chip.Bank() == 0)
      ensures ok && old(len) == 0 ==> chip.CanSend()
    {
      hide Laid;
      if tbusy {
        return false;
      }
      tbusy := true;
      var _ := chip.SwitchBank(0);
      Enqueue(frame);
      if len == 1 {
        SendNext();
      }
      tbusy := false;
      ok := true;
    }

    /** Fills the next slot and copies the frame behind the ones already queued. */
    method Enqueue(frame: seq<Byte>)
      requires Valid() && HasRoom(|frame|)
      modifies this`tail, this`len, this`free, this`accepted, queue, chip.shm
      ensures QueueOk()
      ensures accepted == old(accepted) + [frame]
      ensures len == old(len) + 1 && free == old(free) + 1 && tail == old(tail) + |frame|
    {
      hide Laid;
      TailInRegion();
      queue[free] := FrameCb(tail, |frame|);
      tail := tail + |frame|;
      CopyToPc(queue[free].start - membase, frame);
      len := len + 1;
      free := free + 1;
      accepted := accepted + [frame];
      LaidGrows(old(queue[..free]), old(tail), membase, old(chip.shm[..]), chip.shm[..], old(Turn()), frame);
      assert Turn() == old(Turn()) + [frame];
      assert queue[..free] == old(queue[..free]) + [FrameCb(old(tail), |frame|)];
    }

    method CopyToPc(at: nat, bytes: seq<Byte>)
      requires at + |bytes| <= chip.shm.Length
      modifies chip.shm
      ensures chip.shm[..] == old(chip.shm[..at]) + bytes + old(chip.shm[at + |bytes|..])
    {
      forall i | 0 <= i < |bytes| {
        chip.shm[at + i] := bytes[i];
      }
    }

    /** Stops reception and enables the transmitter. */
    method EnableTransmit()
      requires chip.Valid()
      modifies chip
      ensures chip.wire == old(chip.wire) && chip.fir == old(chip.fir) && chip.strays == old(chip.strays)
      ensures chip.Enables() == MCR_INTR_EN + MCR_TX_EN && chip.Bank() == 0
      ensures chip.taken == old(chip.taken) && chip.commands == old(chip.commands)
      ensures chip.Latched(MISC) == 0 && chip.Latched(TX_CTRL2) == TX_CTRL2_SEND
    {
      var _ := chip.SwitchBank(0);
      chip.OutB(0, MISC);
      chip.SetMcr(MCR_INTR_EN + MCR_TX_EN, 0);
      chip.OutB(TX_CTRL2_SEND, TX_CTRL2);
    }

    method LoadCount(count: int)
      requires chip.Valid()
      modifies chip`mcr, chip`latch, chip`strays, chip`wire, chip`fir, chip`commands
      ensures chip.wire == old(chip.wire) && chip.fir == old(chip.fir) && chip.strays == old(chip.strays)
      ensures chip.Enables() == old(chip.Enables()) && chip.Bank() == 1
      ensures chip.TxCount() == CountLow(count) + 256 * CountHigh(count)
      ensures chip.Latched(TX_CTRL2) == old(chip.Latched(TX_CTRL2))
      ensures chip.commands == old(chip.commands)
    {
      var _ := chip.SwitchBank(1);
      chip.OutB(CountLow(count), TX_BYTE_COUNT_LOW);
      chip.OutB(CountHigh(count), TX_BYTE_COUNT_HIGH);
    }

    method LoadAddress(addr: int)
      requires chip.Valid()
      modifies chip
      ensures chip.wire == old(chip.wire) && chip.fir == old(chip.fir) && chip.strays == old(chip.strays)
      ensures chip.Enables() == old(chip.Enables()) && chip.Bank() == 3
      ensures chip.TxCount() == old(chip.TxCount())
      ensures chip.TxAddress() == AddrLow(addr) + 256 * AddrHigh(addr)
      ensures chip.taken == old(chip.taken) && chip.commands == old(chip.commands)
      ensures chip.Latched(TX_CTRL2) == old(chip.Latched(TX_CTRL2))
      ensures chip.Latched(SH_MEM_PAGE) == 0
    {
      hide Chip.Bank, Chip.Enables, Chip.TxBytes, Chip.CanSend, AddrLow, AddrHigh, SwitchesOn;
      var _ := chip.SwitchBank(3);
      chip.OutB(0, SH_MEM_PAGE);
      chip.OutB(AddrLow(addr), TX_DMA_ADDR_LOW);
      chip.OutB(AddrHigh(addr), TX_DMA_ADDR_HIGH);
    }

    /** Gives the transmitter its DMA channel. */
    method OpenDma()
      requires chip.Valid()
      modifies chip
      ensures chip.wire == old(chip.wire) && chip.fir == old(chip.fir) && chip.strays == old(chip.strays)
      ensures chip.Enables() == old(chip.Enables()) && chip.Bank() == 0
      ensures chip.taken == old(chip.taken) && chip.commands == old(chip.commands)
      ensures chip.Latched(MISC) == MISC_DMA && chip.Latched(TX_CTRL2) == old(chip.Latched(TX_CTRL2))
      ensures chip.TxAddress() == old(chip.TxAddress()) && chip.TxCount() == old(chip.TxCount())
      ensures chip.Latched(SH_MEM_PAGE) == old(chip.Latched(SH_MEM_PAGE))
    {
      hide Chip.Bank, Chip.Enables, Chip.TxBytes;
      var _ := chip.SwitchBank(0);
      chip.OutB(MISC_DMA, MISC);
    }

    method RequestToSend()
      requires chip.Valid() && chip.Enables() / MCR_TX_EN % 2 == 1
      modifies chip
      ensures chip.wire == old(chip.wire) + [old(chip.TxBytes())]
      ensures chip.fir == old(chip.fir) && chip.strays == old(chip.strays)
      ensures chip.Enables() == old(chip.Enables()) && chip.Bank() == 0
      ensures chip.taken == old(chip.taken) && chip.commands == old(chip.commands)
      ensures chip.Latched(MISC) == MISC_DMA && chip.Latched(TX_CTRL1) == TX_CTRL1_SEND
      ensures chip.Latched(TX_CTRL2) == old(chip.Latched(TX_CTRL2))
      ensures chip.Latched(SH_MEM_PAGE) == old(chip.Latched(SH_MEM_PAGE))
    {
      hide Chip.Bank, Chip.Enables;
      OpenDma();
      var _ := chip.SwitchBank(0);
      assert chip.TxBytes() == old(chip.TxBytes());
      hide Chip.TxBytes, Chip.TxAddress, Chip.TxCount;
      chip.OutB(TX_CTRL1_SEND, TX_CTRL1);
    }

    /** Sends what slot `ptr` describes: a frame if one is queued, and else whatever is there, also behind
        the last slot. */
    method DmaWrite()
      requires chip.Valid() && queue.Length == MAX_WINDOW && (len > 0 ==> QueueOk())
      modifies chip
      ensures |chip.wire| == |old(chip.wire)| + 1
      ensures len > 0 ==> chip.wire == old(chip.wire) + [accepted[base + ptr]]
      ensures chip.Enables() == MCR_INTR_EN + MCR_TX_EN && chip.Bank() == 0
      ensures chip.strays == old(chip.strays) && chip.fir == old(chip.fir)
      ensures chip.taken == old(chip.taken) && chip.commands == old(chip.commands)
      ensures chip.Latched(MISC) == MISC_DMA && chip.Latched(TX_CTRL1) == TX_CTRL1_SEND
      ensures chip.Latched(TX_CTRL2) == TX_CTRL2_SEND && chip.Latched(SH_MEM_PAGE) == 0
    {
      hide Laid;
      if len > 0 {
        SlotInRange();
      }
      var slot: FrameCb := *;
      if 0 <= ptr < MAX_WINDOW {
        slot := queue[ptr];
      }
      EnableTransmit();
      LoadCount(slot.len);
      LoadAddress(slot.start - membase);
      if len > 0 {
        SlotHoldsFrame();
      }
      RequestToSend();
    }

    lemma SlotInRange()
      requires QueueOk() && len > 0
      ensures queue[ptr].len >= 0 && queue[ptr].start >= membase
      ensures queue[ptr].End() <= membase + SHMEM_SIZE && queue[ptr].start >= membase + SHMEM_TX_START
      ensures queue[ptr].len < 8192
      ensures chip.shm[queue[ptr].start - membase..queue[ptr].End() - membase] == accepted[base + ptr]
    {
      assert Holds(queue[..free][ptr], tail, membase, chip.shm[..], Turn()[ptr]);
    }

    lemma TailInRegion()
      requires QueueOk()
      ensures membase + SHMEM_TX_START <= tail <= membase + SHMEM_SIZE
    {
    }

    /** The slice the counters describe is the frame at `ptr`. */
    lemma SlotHoldsFrame()
      requires QueueOk() && len > 0 && queue[ptr].len >= 0 && queue[ptr].start >= membase
      requires chip.TxCount() == CountLow(queue[ptr].len) + 256 * CountHigh(queue[ptr].len)
      requires chip.TxAddress()
               == AddrLow(queue[ptr].start - membase) + 256 * AddrHigh(queue[ptr].start - membase)
      ensures chip.TxBytes() == accepted[base + ptr]
    {
      hide Laid;
      SlotInRange();
      CountSurvivesExactly(queue[ptr].len);
      AddressSurvivesExactly(queue[ptr].start - membase);
    }

    /** Sends from the queue, and with nothing queued something all the same. */
    method SendNext()
      requires chip.Valid() && queue.Length == MAX_WINDOW
      requires len > 0 ==> QueueOk() && chip.wire == accepted[..base + ptr]
      modifies chip
      ensures chip.Valid()
      ensures len > 0 ==> Valid()
      ensures |chip.wire| == |old(chip.wire)| + 1
      ensures chip.Enables() == MCR_INTR_EN + MCR_TX_EN && chip.Bank() == 0
      ensures chip.strays == old(chip.strays) && chip.fir == old(chip.fir)
      ensures chip.taken == old(chip.taken) && chip.commands == old(chip.commands)
      ensures chip.CanSend()
    {
      hide Laid;
      DmaWrite();
      if len > 0 {
        assert accepted[..base + ptr + 1] == accepted[..base + ptr] + [accepted[base + ptr]];
      }
    }

    method Advance()
      requires Sound()
      modifies this`ptr, this`len
      ensures old(len) > 0 ==> QueueOk() && chip.wire == accepted[..base + ptr]
      ensures ptr == old(ptr) + 1 && len == old(len) - 1
    {
      ptr := ptr + 1;
      len := len - 1;
    }

    /** Reads the transmit status until the end of the message, at most MAX_SPINS times. */
    method AwaitEom() returns (underrun: bool)
      modifies chip`strays, chip`taken
      ensures chip.taken == AfterStatus(chip.answers, old(chip.taken))
      ensures old(chip.taken) < chip.taken <= old(chip.taken) + MAX_SPINS
      ensures underrun == Underran(Answer(chip.answers, old(chip.taken)))
      ensures chip.Bank() == TX_STAT.Bank() ==> chip.strays == old(chip.strays)
    {
      hide Underran, EndOfMessage, Answer;
      ghost var from := chip.taken;
      var stat := chip.InB(TX_STAT);
      underrun := Underran(stat);
      if !underrun {
        var paranoid := 0;
        while !EndOfMessage(stat)
          invariant chip.taken == from + 1 + paranoid <= from + MAX_SPINS
          invariant stat == Answer(chip.answers, chip.taken - 1)
          invariant AfterPolling(chip.answers, from, chip.taken - 1) == AfterPolling(chip.answers, from, from)
          invariant chip.Bank() == TX_STAT.Bank() ==> chip.strays == old(chip.strays)
          decreases MAX_SPINS - paranoid
        {
          if paranoid > 1000 {
            break;
          }
          paranoid := paranoid + 1;
          stat := chip.InB(TX_STAT);
        }
      }
    }

    /** Takes the transmitter down after a frame. The bank given is selected throughout. */
    method EndTransmit(bank: BankNo)
      requires chip.Valid()
      modifies chip
      ensures chip.wire == old(chip.wire) && chip.fir == old(chip.fir)
      ensures chip.Enables() == MCR_INTR_EN && chip.Bank() == bank
      ensures chip.strays == old(chip.strays) + if bank == 0 then [] else [MISC, RESET]
      ensures chip.taken == old(chip.taken)
      ensures chip.commands == old(chip.commands) + if bank == 0 then [RESET_TX_SPEC_BITS] else []
      ensures bank == 0 ==> chip.Latched(MISC) == 0
    {
      chip.SetMcr(MCR_INTR_EN, bank);
      chip.OutB(0, MISC);
      chip.OutB(RESET_TX_SPEC_BITS, RESET);
    }

    /** Waits for the end of the message and ends the transmission, back under the caller's bank. */
    method AwaitAndEnd()
      requires chip.Valid()
      modifies chip
      ensures chip.wire == old(chip.wire) && chip.fir == old(chip.fir)
      ensures chip.Enables() == MCR_INTR_EN && chip.Bank() == old(chip.Bank())
      ensures chip.taken == AfterStatus(chip.answers, old(chip.taken))
      ensures chip.strays == old(chip.strays) + if chip.Bank() == 0 then [] else [MISC, RESET]
      ensures chip.commands == old(chip.commands) + if chip.Bank() == 0 then [RESET_TX_SPEC_BITS] else []
    {
      hide AfterStatus, Underran, Answer, Chip.Bank, Chip.Enables;
      var bank := chip.SwitchBank(0);
      var _ := AwaitEom();
      EndTransmit(bank);
    }

    /** The frame at `ptr` has been sent. `stackEmpty` says whether the stack has nothing more to send.
        With nothing queued the length goes below 0 and the slot behind is sent. */
    method XmitComplete(stackEmpty: bool)
      requires Sound()
      modifies this, chip
      ensures Sound() && accepted == old(accepted) && !tbusy
      ensures base + ptr == old(base + ptr) + 1
      ensures old(len) > 0 ==> Pending() == old(Pending())[1..]
      ensures Now() == Serviced(old(Now()), Transmitted, stackEmpty)
      ensures chip.taken == AfterStatus(chip.answers, old(chip.taken))
      ensures if len == 0 && stackEmpty then free == 0 && tail == membase + SHMEM_TX_START
              else free == old(free) && tail == old(tail) && base == old(base)
      ensures len != 0 ==> chip.Enables() == MCR_INTR_EN + MCR_TX_EN && |chip.wire| == |old(chip.wire)| + 1
      ensures len == 0 ==> chip.Enables() == MCR_INTR_EN + if stackEmpty then MCR_RX_EN else 0
      ensures baudrate == old(baudrate) && firXmit == old(firXmit) && chip.fir == old(chip.fir)
      ensures chip.commands == old(chip.commands)
              + (if old(chip.Bank()) == 0 then [RESET_TX_SPEC_BITS] else [])
              + (if old(chip.Bank()) == 0 && len == 0 && stackEmpty then [RESET_RX_SPEC_BITS, RESET_RX_RFP] else [])
      ensures if len != 0 then chip.CanSend() else stackEmpty ==> chip.CanReceive()
    {
      hide Laid, AfterStatus, Chip.Bank, Chip.Enables, Chip.CanSend, Chip.CanReceive;
      AwaitAndEnd();
      tbusy := false;

      Advance();
      if len != 0 {
        SendNext();
      } else if stackEmpty {
        EndTurn();
      }
    }

    /** Nothing left to send, here or in the stack. */
    method EndTurn()
      requires Valid() && len == 0
      modifies this`ptr, this`len, this`free, this`tail, this`base, chip
      ensures Valid()
      ensures ptr == free == len == 0 && base == |accepted| && tail == membase + SHMEM_TX_START
      ensures chip.Enables() == MCR_INTR_EN + MCR_RX_EN && chip.Bank() == 0
      ensures chip.strays == old(chip.strays) + if old(chip.Bank()) == 0 then [] else [TX_CTRL1, RESET, RESET]
      ensures chip.fir == old(chip.fir)
      ensures chip.taken == old(chip.taken)
      ensures chip.commands == old(chip.commands)
              + if old(chip.Bank()) == 0 then [RESET_RX_SPEC_BITS, RESET_RX_RFP] else []
      ensures chip.CanReceive() && (old(chip.Bank()) == 0 ==> chip.Latched(TX_CTRL1) == 0)
    {
      hide Laid;
      chip.OutB(0, TX_CTRL1);
      Receive();
    }

    /** Empties the queue: the next frame goes to the start of the region again. */
    method ResetQueue()
      requires Valid() && len == 0
      modifies this`ptr, this`len, this`free, this`tail, this`base
      ensures Valid()
      ensures ptr == free == len == 0 && base == |accepted| && tail == membase + SHMEM_TX_START
    {
      len, ptr, free := 0, 0, 0;
      tail := SHMEM_TX_START + membase;
      base := |accepted|;
    }

    /** Gets ready to receive, which also starts a new turn. Entered under a bank other than 0 the two
        RESET writes miss their register. */
    method Receive()
      requires Valid() && len == 0
      modifies this`ptr, this`len, this`free, this`tail, this`base, chip
      ensures Valid()
      ensures ptr == free == len == 0 && base == |accepted| && tail == membase + SHMEM_TX_START
      ensures chip.wire == old(chip.wire) && chip.fir == old(chip.fir)
      ensures chip.Latched(IR_CONF) == old(chip.Latched(IR_CONF))
      ensures chip.Enables() == MCR_INTR_EN + MCR_RX_EN && chip.Bank() == 0
      ensures chip.strays == old(chip.strays) + if old(chip.Bank()) == 0 then [] else [RESET, RESET]
      ensures chip.taken == old(chip.taken)
      ensures chip.commands == old(chip.commands)
              + if old(chip.Bank()) == 0 then [RESET_RX_SPEC_BITS, RESET_RX_RFP] else []
      ensures chip.CanReceive() && chip.Latched(TX_CTRL1) == old(chip.Latched(TX_CTRL1))
    {
      hide Laid;
      var bank := chip.SwitchBank(0);
      chip.SetMcr(MCR_INTR_EN, bank);
      ResetQueue();
      ResetReceiver(bank);
      EnableReceive(bank);
    }

    method ResetReceiver(bank: BankNo)
      requires chip.Valid() && chip.Bank() == bank && chip.Enables() == MCR_INTR_EN
      modifies chip
      ensures chip.wire == old(chip.wire) && chip.fir == old(chip.fir)
      ensures chip.Latched(IR_CONF) == old(chip.Latched(IR_CONF))
      ensures chip.Enables() == old(chip.Enables()) && chip.Bank() == bank
      ensures chip.strays == old(chip.strays) + if bank == 0 then [] else [RESET, RESET]
      ensures chip.taken == old(chip.taken)
      ensures chip.commands == old(chip.commands) + if bank == 0 then [RESET_RX_SPEC_BITS, RESET_RX_RFP] else []
      ensures chip.Latched(TX_CTRL1) == old(chip.Latched(TX_CTRL1))
    {
      chip.OutB(RESET_RX_SPEC_BITS, RESET);
      chip.OutB(RESET_RX_RFP, RESET);
    }

    method EnableReceive(bank: BankNo)
      requires chip.Valid()
      modifies chip
      ensures chip.wire == old(chip.wire) && chip.fir == old(chip.fir) && chip.strays == old(chip.strays)
      ensures chip.Latched(IR_CONF) == old(chip.Latched(IR_CONF))
      ensures chip.Enables() == MCR_INTR_EN + MCR_RX_EN && chip.Bank() == 0
      ensures chip.taken == old(chip.taken) && chip.commands == old(chip.commands)
      ensures chip.CanReceive() && chip.Latched(TX_CTRL1) == old(chip.Latched(TX_CTRL1))
    {
      chip.SetMcr(MCR_RX_EN + MCR_INTR_EN, bank);
      var _ := chip.SwitchBank(0);
      chip.OutB(RX_CTRL_EN_CRC + RX_CTRL_COND_I, RX_CTRL);
      chip.OutB(MISC_DMA, MISC);
    }

    // ----- the interrupt -----

    /** The interrupt cause, or what another register says if a bank other than 0 is selected: the frame
        address, with bank 1. */
    method ReadMsr() returns (id: Byte)
      modifies chip`strays, chip`taken
      ensures id == IdOf(Answer(chip.answers, old(chip.taken))) && chip.taken == old(chip.taken) + 1
      ensures Now() == Reread(old(Now()))
    {
      var msr := chip.InB(MSR);
      id := IdOf(msr);
    }

    /** Looks at the status byte the receive ring points to. Only the overrun path goes back to bank 0. */
    method ReceiveComplete() returns (overrun: bool)
      requires chip.Valid()
      modifies chip
      ensures overrun == Overruns(chip.answers, old(chip.taken))
      ensures chip.taken == AfterReceive(chip.answers, old(chip.taken))
      ensures chip.taken == old(chip.taken) + if RingPtr(chip.answers, old(chip.taken)) == 0 then 2 else 4
      ensures chip.wire == old(chip.wire) && chip.fir == old(chip.fir) && chip.strays == old(chip.strays)
      ensures chip.Enables() == old(chip.Enables()) && chip.Bank() == if overrun then 0 else 1
      ensures chip.commands == old(chip.commands) + if overrun then [RESET_RX_SPEC_BITS] else []
    {
      hide Answer;
      var _ := chip.SwitchBank(1);
      var low := chip.InB(RX_RING_FRM_PTR_LOW);
      var high := chip.InB(RX_RING_FRM_PTR_HIGH);
      var page: nat := high % 0x40;
      var ringPtr: nat := low + page * 256;
      if ringPtr == 0 {
        return false;
      }
      var stat := chip.ReadRing(ringPtr);
      var _ := chip.ReadRing(ringPtr - 1);
      if stat / RX_STAT_ABORT % 2 == 1 {
        return false;
      }
      if stat / RX_STAT_FRAME_ERROR % 2 == 1 {
        return false;
      }
      if stat / RX_STAT_FIFO_OVRN % 2 == 1 {
        var _ := chip.SwitchBank(0);
        chip.OutB(RESET_RX_SPEC_BITS, RESET);
        return true;
      }
      return false;
    }

    method Service(id: Byte, stackEmpty: bool) returns (done: Service)
      requires Sound()
      modifies this, chip
      ensures Sound() && accepted == old(accepted)
      ensures done == CauseAt(chip.answers, old(chip.taken), id)
      ensures chip.taken == AfterCause(chip.answers, old(chip.taken), id)
      ensures Now() == Serviced(old(Now()), done, stackEmpty)
      ensures base + ptr == old(base + ptr) + if done.Transmitted? then 1 else 0
    {
      hide Laid, AfterStatus, AfterReceive, Overruns;
      done := Ignored;
      if id == MSR_TX_COND_ID {
        XmitComplete(stackEmpty);
        done := Transmitted;
      } else if id == MSR_RX_DATA_ID || id == MSR_RX_COND_ID {
        var overrun := ReceiveComplete();
        done := Received(overrun);
      }
    }

    /** At a speed for the chip, whatever the device and the stack answer: which causes are serviced,
        which accesses go astray, and that the queue survives exactly when no more completions are
        reported than frames are queued. The caller's bank comes back. */
    method Interrupt(stackEmpty: nat -> bool) returns (served: seq<Service>)
      requires Sound()
      modifies this, chip
      ensures Sound() && accepted == old(accepted) && chip.Bank() == old(chip.Bank())
      ensures served == if old(baudrate) <= 115200 then [] else Causes(chip.answers, old(chip.taken), MAX_EVENTS)
      ensures chip.taken == if old(baudrate) <= 115200 then old(chip.taken)
                            else AfterCauses(chip.answers, old(chip.taken), MAX_EVENTS)
      ensures old(baudrate) > 115200 ==> chip.strays == AtEnd(old(Now()).(bank := 0), served, stackEmpty).strays
      ensures chip.strays == old(chip.strays) <==> BanksKept(served)
      ensures len == old(len) - Sent(served) && base + ptr == old(base + ptr) + Sent(served)
      ensures Valid() <==> Sent(served) <= old(len)
    {
      hide Laid, Causes, AfterCauses, AfterCause, CauseAt, Reaches, IdOf, Answer, Along, BanksKept, Sent;
      served := [];
      AlongNothing(Now(), stackEmpty);
      if baudrate <= 115200 {
        return;
      }
      var bogus := 0;
      var bank := chip.SwitchBank(0);
      ghost var start, from := Now(), chip.taken;
      AlongNothing(start, stackEmpty);
      ReachesStart(chip.answers, from);
      var id := ReadMsr();
      while id != 0
        invariant Sound() && accepted == old(accepted)
        invariant bogus == |served| < MAX_EVENTS && chip.taken > 0
        invariant id == IdOf(Answer(chip.answers, chip.taken - 1))
        invariant Reaches(chip.answers, from, served, chip.taken - 1)
        invariant Now() == Reread(Along(start, served, stackEmpty))
        invariant base + ptr == old(base + ptr) + Sent(served)
        decreases MAX_EVENTS - bogus
      {
        ReachesNext(chip.answers, from, served, chip.taken - 1);
        var done := Service(id, stackEmpty(bogus));
        AlongSnoc(start, served, done, stackEmpty);
        served := served + [done];
        if bogus > 10 {
          break;
        }
        bogus := bogus + 1;
        id := ReadMsr();
      }
      ReachesEnd(chip.answers, from, served, if |served| == MAX_EVENTS then chip.taken else chip.taken - 1);
      NothingStraysExactly(start, served, stackEmpty);
      LengthAlong(start, served, stackEmpty);
      var _ := chip.SwitchBank(bank);
    }

    // ----- speed -----

    method SirToFir()
      requires chip.Valid()
      modifies chip
      ensures chip.fir && chip.wire == old(chip.wire) && chip.strays == old(chip.strays)
      ensures chip.taken == old(chip.taken) && chip.commands == old(chip.commands)
      ensures chip.Latched(IR_TRANS_CTRL) == 0
    {
      chip.SwitchBankOnly(2);
      chip.OutB(XCVROFF, IR_TRANS_CTRL);
      chip.OutB(XCVROFF + TXD_FRC, IR_TRANS_CTRL);
      chip.OutB(TXD_FRC, IR_TRANS_CTRL);
      chip.OutB(0, IR_TRANS_CTRL);
    }

    method FirToSir()
      requires chip.Valid()
      modifies chip
      ensures !chip.fir && chip.wire == old(chip.wire) && chip.strays == old(chip.strays)
      ensures chip.taken == old(chip.taken) && chip.commands == old(chip.commands)
      ensures chip.Latched(IR_TRANS_CTRL) == 0
    {
      chip.SwitchBankOnly(2);
      chip.OutB(XCVROFF, IR_TRANS_CTRL);
      chip.OutB(0, IR_TRANS_CTRL);
    }

    /** Turns the transceiver when the change crosses between SIR and FIR. */
    method TurnTransceiver(speed: nat)
      requires chip.Valid()
      modifies chip
      ensures chip.fir == ModeAfter(baudrate, old(chip.fir), speed)
      ensures chip.wire == old(chip.wire) && chip.strays == old(chip.strays)
      ensures chip.taken == old(chip.taken) && chip.commands == old(chip.commands)
    {
      if baudrate > 1152000 && speed < 4000000 {
        FirToSir();
      } else if baudrate < 4000000 && speed > 1152000 {
        SirToFir();
      }
    }

    /** Resets the chip and programs the modulation of the speed. */
    method Configure(speed: nat)
      requires chip.Valid()
      modifies chip
      ensures chip.wire == old(chip.wire) && chip.strays == old(chip.strays) && chip.fir == old(chip.fir)
      ensures chip.Enables() == 0 && chip.Bank() == 2 && chip.Latched(IR_CONF) == ConfFor(speed)
      ensures chip.taken == old(chip.taken) && chip.commands == old(chip.commands) + [0x07]
    {
      chip.SwitchBankOnly(0);
      chip.OutB(0x07, RESET);
      chip.SwitchBankOnly(2);
      if speed == 576000 {
        chip.OutB(IR_CONF_MIR_576 + IR_CONF_MIR, IR_CONF);
      } else if speed == 1152000 {
        chip.OutB(IR_CONF_MIR_1152 + IR_CONF_MIR, IR_CONF);
      } else if speed == 4000000 {
        chip.OutB(IR_CONF_FIR, IR_CONF);
      } else {
        chip.OutB(IR_CONF_SIR, IR_CONF);
      }
    }

    /** Called with nothing queued. Above 115200 it ends by getting ready to receive under bank 2, where
        the two RESET writes miss. */
    method ChangeSpeed(speed: nat)
      requires Valid() && len == 0
      modifies this, chip
      ensures Valid() && accepted == old(accepted) && len == 0 && !tbusy && chip.taken == old(chip.taken)
      ensures baudrate == speed && firXmit == (speed > 115200)
      ensures chip.fir == ModeAfter(old(baudrate), old(chip.fir), speed)
      ensures chip.Latched(IR_CONF) == ConfFor(speed)
      ensures chip.strays == old(chip.strays) + if speed > 115200 then [RESET, RESET] else []
      ensures if speed > 115200 then chip.Enables() == MCR_INTR_EN + MCR_RX_EN && chip.Bank() == 0 && free == 0
              else chip.Enables() == 0 && chip.Bank() == 2 && free == old(free)
      ensures var conf := chip.Latched(IR_CONF);
              && (conf / 0x02 % 2 == 1 <==> speed == 576000 || speed == 1152000)
              && (conf / 0x04 % 2 == 1 <==> speed == 4000000)
              && (conf / 0x10 % 2 == 1 <==> speed == 576000)
              && conf % 2 == conf / 0x08 % 2 == conf / 0x20 == 0
      ensures chip.commands == old(chip.commands) + [0x07] && (speed > 115200 ==> chip.CanReceive())
    {
      hide Laid;
      TurnTransceiver(speed);
      baudrate := speed;
      firXmit := speed > 115200;
      Configure(speed);
      tbusy := false;
      if speed > 115200 {
        Receive();
      }
    }

    // ----- whole runs -----

    ghost function Spent(): Account
      requires 0 <= free && 0 <= len && membase + SHMEM_TX_START <= tail
      reads this
    {
      Account(free, len, tail - (membase + SHMEM_TX_START))
    }

    method Perform(step: Step)
      requires Valid() && !tbusy && 0 <= free && 0 <= len && membase + SHMEM_TX_START <= tail
      requires Ready(Spent(), step)
      modifies this, queue, chip, chip.shm
      ensures Valid() && !tbusy && 0 <= free && 0 <= len && membase + SHMEM_TX_START <= tail
      ensures Spent() == After(old(Spent()), step)
      ensures accepted == old(accepted) + if step.Xmit? then [step.frame] else []
      ensures base + ptr == old(base + ptr) + if step.Complete? then 1 else 0
    {
      hide Laid;
      match step {
        case Xmit(frame) => var _ := HardXmit(frame);
        case Complete(stackEmpty) => XmitComplete(stackEmpty);
      }
    }

    /** Any interleaving of enqueues and completions within the window: every frame is taken, and the
        frames on the air are, byte for byte and in order, the first of those taken. */
    method Serve(steps: seq<Step>)
      requires Valid() && !tbusy && 0 <= free && 0 <= len && membase + SHMEM_TX_START <= tail
      requires ReadyRun(Spent(), steps)
      modifies this, queue, chip, chip.shm
      ensures Valid() && accepted == old(accepted) + Frames(steps)
      ensures base + ptr == old(base + ptr) + Completions(steps)
      ensures chip.wire <= accepted
      ensures Completions(steps) == old(len) + |Frames(steps)| ==> chip.wire == accepted
    {
      hide Laid;
      var i := 0;
      while i < |steps|
        invariant 0 <= i <= |steps|
        invariant Valid() && !tbusy && 0 <= free && 0 <= len && membase + SHMEM_TX_START <= tail
        invariant ReadyRun(Spent(), steps[i..])
        invariant accepted + Frames(steps[i..]) == old(accepted) + Frames(steps)
        invariant base + ptr + Completions(steps[i..]) == old(base + ptr) + Completions(steps)
      {
        assert steps[i..][0] == steps[i] && steps[i..][1..] == steps[i + 1..];
        Perform(steps[i]);
        i := i + 1;
      }
    }
  }

  // ----- the transceiver's mode -----

  const IR_CONF_SIR: Byte := 0x00
  const IR_CONF_MIR: Byte := 0x02
  const IR_CONF_FIR: Byte := 0x04
  const IR_CONF_MIR_1152: Byte := 0x00
  const IR_CONF_MIR_576: Byte := 0x10

  function ConfFor(speed: nat): Byte {
    if speed == 576000 then 0x12
    else if speed == 1152000 then 0x02
    else if speed == 4000000 then 0x04
    else 0x00
  }

  function ModeAfter(baudrate: nat, fir: bool, speed: nat): bool {
    if baudrate > 1152000 && speed < 4000000 then false
    else if baudrate < 4000000 && speed > 1152000 then true
    else fir
  }

  /** Speeds no table lists, between the fastest medium one and 4 Mb/s. */
  predicate InGap(speed: nat) {
    1152000 < speed < 4000000
  }

  /** One change keeps "FIR mode is on exactly above 1152000" unless it stays above that and enters the
      gap, and then it always breaks it. */
  lemma ModeTracksExactly(baudrate: nat, fir: bool, speed: nat)
    requires fir == (baudrate > 1152000)
    ensures ModeAfter(baudrate, fir, speed) == (speed > 1152000) <==> !(baudrate > 1152000 && InGap(speed))
  {
  }

  /** The mode after a run of speed changes from power-up at 9600. */
  function ModeRun(speeds: seq<nat>): bool {
    if speeds == [] then false
    else ModeAfter(LastSpeed(speeds[..|speeds| - 1]), ModeRun(speeds[..|speeds| - 1]), speeds[|speeds| - 1])
  }

  function LastSpeed(speeds: seq<nat>): nat {
    if speeds == [] then 9600 else speeds[|speeds| - 1]
  }

  /** Over any run of supported speeds the transceiver is in the mode of the current speed. */
  lemma {:induction false} ModeTracksRun(speeds: seq<nat>)
    requires forall k :: 0 <= k < |speeds| ==> !InGap(speeds[k])
    ensures ModeRun(speeds) == (LastSpeed(speeds) >= 4000000)
  {
    if speeds != [] {
      ModeTracksRun(speeds[..|speeds| - 1]);
    }
  }

  // ----- room for a whole turn -----

  datatype Step = Xmit(frame: seq<Byte>) | Complete(stackEmpty: bool)

  /** Slots used, frames not yet complete and bytes used since the last reset. */
  datatype Account = Account(free: nat, len: nat, used: nat)

  predicate Ready(a: Account, step: Step) {
    match step
    case Xmit(frame) =>
      a.free < MAX_WINDOW && |frame| < 8192 && a.used + |frame| <= SHMEM_SIZE - SHMEM_TX_START
    case Complete(_) => a.len > 0
  }

  function After(a: Account, step: Step): Account
    requires step.Complete? ==> a.len > 0
  {
    match step
    case Xmit(frame) => Account(a.free + 1, a.len + 1, a.used + |frame|)
    case Complete(stackEmpty) =>
      if a.len == 1 && stackEmpty then Account(0, 0, 0) else a.(len := a.len - 1)
  }

  predicate ReadyRun(a: Account, steps: seq<Step>)
    decreases |steps|
  {
    steps == [] || (Ready(a, steps[0]) && ReadyRun(After(a, steps[0]), steps[1..]))
  }

  function Frames(steps: seq<Step>): seq<seq<Byte>> {
    if steps == [] then []
    else (if steps[0].Xmit? then [steps[0].frame] else []) + Frames(steps[1..])
  }

  function Completions(steps: seq<Step>): nat {
    if steps == [] then 0
    else (if steps[0].Complete? then 1 else 0) + Completions(steps[1..])
  }

  const MAX_FRAME := 2050

  /** The link layer's side of the bargain: a window of seven frames of at most MAX_FRAME bytes, and
      completions only for frames being sent. */
  predicate InWindow(a: Account, step: Step) {
    match step
    case Xmit(frame) => a.free < MAX_WINDOW - 1 && |frame| <= MAX_FRAME
    case Complete(_) => a.len > 0
  }

  predicate WindowRun(a: Account, steps: seq<Step>)
    decreases |steps|
  {
    steps == [] || (InWindow(a, steps[0]) && WindowRun(After(a, steps[0]), steps[1..]))
  }

  /** Under that bargain every frame of every run has a slot and room in the region. */
  lemma {:induction false} WindowAlwaysFits(a: Account, steps: seq<Step>)
    requires a.used <= MAX_FRAME * a.free && WindowRun(a, steps)
    ensures ReadyRun(a, steps)
    decreases |steps|
  {
    if steps != [] {
      WindowAlwaysFits(After(a, steps[0]), steps[1..]);
    }
  }

  /** Of full frames seven fit and the eighth, for which there is still a slot, does not. */
  lemma SevenFullFramesFit(k: nat, len: nat, frame: seq<Byte>)
    requires k <= 7 && |frame| == MAX_FRAME
    ensures Ready(Account(k, len, MAX_FRAME * k), Xmit(frame)) <==> k < 7
  {
  }

  // ----- a run in which the queue does not survive -----

  /** From power-up, with a device that reports no completion where the master status is: a receive with
      nothing in the ring leaves bank 1 selected, the frame address there is read for the next cause and
      holds 0xff, and a completion is serviced with nothing queued. */
  method StrayReadBreaksQueue() returns (driver: Driver)
    ensures !driver.Valid() && driver.len == -1 && driver.accepted == []
    ensures driver.chip.strays == [RESET, RESET, MSR, MISC, RESET]
  {
    hide Laid, Causes, AfterCauses, AtEnd, Sent;
    var stackEmpty := _ => false;
    driver := new Driver(0, [MSR_RX_COND_ID, 0, 0, 0xff, TX_STAT_EOM]);
    driver.ChangeSpeed(4000000);
    assert driver.Now().(bank := 0) == Line(0, 0, [RESET, RESET]);
    StrayAnswerIsTakenForCompletion(driver.chip.answers, [RESET, RESET], stackEmpty);
    var _ := driver.Interrupt(stackEmpty);
    assert [RESET, RESET] + [MSR, MISC, RESET] == [RESET, RESET, MSR, MISC, RESET];
  }
}
