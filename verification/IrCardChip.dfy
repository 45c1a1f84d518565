/** The 31T1502 as the driver sees it: a banked register file, the shared memory it transmits from
    and the transceiver behind it (pcmcia/ircard_cs.h). */
module IrCardChip {
  import opened Bytes

  // MCR bits; the low five bits select the bank.
  const MCR_INTR_EN: Byte := 0x80
  const MCR_TX_EN: Byte := 0x40
  const MCR_RX_EN: Byte := 0x20
  const BANKS := 32

  type BankNo = b: int | 0 <= b < BANKS

  const PAGE_DISABLE: Byte := 0x40
  const SHMEM_SIZE := 0x8000
  const SHMEM_TX_START := 0x4000

  const TX_CTRL1_RTS: Byte := 0x80
  const MISC_XMIT: Byte := 0x80
  const MISC_RECV: Byte := 0x40
  const RX_CTRL_EN_CRC: Byte := 0x40
  const RX_CTRL_COND_I: Byte := 0x01
  const XCVROFF: Byte := 0x10
  const TXD_FRC: Byte := 0x02

  /** The registers the driver uses, by their names in the header. */
  datatype Reg =
    | MSR | MISC | TX_CTRL1 | TX_CTRL2 | TX_STAT | RX_CTRL | RESET
    | RX_RING_FRM_PTR_LOW | RX_RING_FRM_PTR_HIGH | TX_BYTE_COUNT_LOW | TX_BYTE_COUNT_HIGH
    | IR_CONF | IR_TRANS_CTRL
    | SH_MEM_PAGE | TX_DMA_ADDR_LOW | TX_DMA_ADDR_HIGH | REVISION_ID
  {
    /** The bank the header lists the register under. */
    function Bank(): BankNo {
      match this
      case MSR | MISC | TX_CTRL1 | TX_CTRL2 | TX_STAT | RX_CTRL | RESET => 0
      case RX_RING_FRM_PTR_LOW | RX_RING_FRM_PTR_HIGH | TX_BYTE_COUNT_LOW | TX_BYTE_COUNT_HIGH => 1
      case IR_CONF | IR_TRANS_CTRL => 2
      case SH_MEM_PAGE | TX_DMA_ADDR_LOW | TX_DMA_ADDR_HIGH | REVISION_ID => 3
    }

    function Offset(): nat {
      match this
      case MSR | MISC | IR_CONF | SH_MEM_PAGE => 1
      case IR_TRANS_CTRL | TX_DMA_ADDR_LOW => 2
      case TX_CTRL1 | TX_DMA_ADDR_HIGH => 3
      case TX_CTRL2 | RX_RING_FRM_PTR_LOW => 4
      case TX_STAT | RX_RING_FRM_PTR_HIGH => 5
      case RX_CTRL | TX_BYTE_COUNT_LOW => 6
      case RESET | TX_BYTE_COUNT_HIGH | REVISION_ID => 7
    }
  }

  /** Where an access through `reg` lands while `bank` is selected: registers of different banks share
      their offsets. */
  function Place(bank: BankNo, reg: Reg): nat {
    bank * 8 + reg.Offset()
  }

  predicate IsOff(control: Byte) {
    control / XCVROFF % 2 == 1
  }

  predicate Forces(control: Byte) {
    control / TXD_FRC % 2 == 1
  }

  /** From `was` to `now` the transceiver goes on, with the mode line held. */
  predicate SwitchesOn(was: Byte, now: Byte) {
    IsOff(was) && !IsOff(now) && Forces(was) == Forces(now)
  }

  /** The answers a device gives to the driver's reads, in the order of the reads; after them it
      answers 0. */
  function Answer(answers: seq<Byte>, k: nat): Byte {
    if k < |answers| then answers[k] else 0
  }

  class Chip {
    const answers: seq<Byte>
    /** How many answers have been read. */
    var taken: nat
    /** The master control register: the enable bits, and below them the selected bank. */
    var mcr: Byte
    /** What was last written at each bank and offset. */
    var latch: map<nat, Byte>
    /** Accesses made while a bank other than the register's own was selected. */
    ghost var strays: seq<Reg>
    const shm: array<Byte>
    /** The frames put on the air, each as the chip read it when the transmission was requested. */
    var wire: seq<seq<Byte>>
    /** The commands the reset register has received. */
    var commands: seq<Byte>
    /** The transceiver's mode. It is taken from TXD_FRC, held while XCVROFF goes off. */
    var fir: bool

    ghost predicate Valid() {
      shm.Length == SHMEM_SIZE
    }

    constructor (answers: seq<Byte>)
      ensures Valid() && fresh(shm) && wire == [] && strays == [] && !fir && mcr == 0 && commands == []
      ensures this.answers == answers && taken == 0
    {
      this.answers, taken := answers, 0;
      mcr := 0;
      latch := map[];
      strays := [];
      shm := new Byte[SHMEM_SIZE];
      wire, commands := [], [];
      fir := false;
    }

    function Bank(): BankNo
      reads this`mcr
    {
      mcr % BANKS
    }

    function Enables(): Byte
      reads this`mcr
    {
      mcr / BANKS * BANKS
    }

    function Latched(reg: Reg): Byte
      reads this`latch
    {
      var at := Place(reg.Bank(), reg);
      if at in latch then latch[at] else 0
    }

    function TxAddress(): nat
      reads this`latch
    {
      Latched(TX_DMA_ADDR_LOW) + 256 * Latched(TX_DMA_ADDR_HIGH)
    }

    function TxCount(): nat
      reads this`latch
    {
      Latched(TX_BYTE_COUNT_LOW) + 256 * Latched(TX_BYTE_COUNT_HIGH)
    }

    /** The bytes a transmission requested now would send. */
    function TxBytes(): seq<Byte>
      requires Valid()
      reads this`latch, shm
    {
      if TxAddress() + TxCount() <= SHMEM_SIZE then shm[TxAddress()..TxAddress() + TxCount()] else []
    }

    /** An access through `reg` reaches `target`. */
    predicate Hits(reg: Reg, target: Reg)
      reads this`mcr
    {
      Bank() == target.Bank() && reg.Offset() == target.Offset()
    }

    /** The transmitter is enabled and has a DMA channel for sending. */
    predicate CanSend()
      reads this`mcr, this`latch
    {
      Enables() / MCR_TX_EN % 2 == 1 && Latched(MISC) / MISC_XMIT == 1
    }

    /** The receiver is enabled, has a DMA channel for receiving and checks the frames it gets. */
    predicate CanReceive()
      reads this`mcr, this`latch
    {
      && Enables() / MCR_RX_EN % 2 == 1 && Latched(MISC) / MISC_RECV % 2 == 1
      && Latched(RX_CTRL) == RX_CTRL_EN_CRC + RX_CTRL_COND_I
    }

    /** Request-to-send reaches the transmit control register of a chip that can send. */
    predicate Requests(value: Byte, reg: Reg)
      reads this`mcr, this`latch
    {
      Hits(reg, TX_CTRL1) && value >= TX_CTRL1_RTS && CanSend()
    }

    /** What the chip does at once on a write. */
    method React(value: Byte, reg: Reg)
      requires Valid()
      modifies this`wire, this`fir, this`commands
      ensures wire == if Requests(value, reg) then old(wire) + [TxBytes()] else old(wire)
      ensures commands == if Hits(reg, RESET) then old(commands) + [value] else old(commands)
      ensures fir == if Hits(reg, IR_TRANS_CTRL) && SwitchesOn(Latched(IR_TRANS_CTRL), value) then Forces(value)
                     else old(fir)
    {
      hide TxBytes, Latched, SwitchesOn, Forces;
      if Hits(reg, TX_CTRL1) {
        if Requests(value, reg) {
          wire := wire + [TxBytes()];
        }
      } else if Hits(reg, RESET) {
        commands := commands + [value];
      } else if Hits(reg, IR_TRANS_CTRL) {
        if SwitchesOn(Latched(IR_TRANS_CTRL), value) {
          fir := Forces(value);
        }
      }
    }

    /** A write lands in the selected bank, whatever register was meant. */
    method OutB(value: Byte, reg: Reg)
      requires Valid()
      modifies this`latch, this`strays, this`wire, this`fir, this`commands
      ensures strays == if Bank() == reg.Bank() then old(strays) else old(strays) + [reg]
      ensures latch == old(latch)[Place(Bank(), reg) := value]
      ensures wire == if old(Requests(value, reg)) then old(wire) + [old(TxBytes())] else old(wire)
      ensures commands == if Hits(reg, RESET) then old(commands) + [value] else old(commands)
      ensures fir == if Hits(reg, IR_TRANS_CTRL) && SwitchesOn(old(Latched(IR_TRANS_CTRL)), value)
                     then Forces(value) else old(fir)
    {
      hide TxBytes, Latched, SwitchesOn, Forces, CanSend, Hits, Requests, Bank, Place;
      React(value, reg);
      if Bank() != reg.Bank() {
        strays := strays + [reg];
      }
      latch := latch[Place(Bank(), reg) := value];
    }

    /** A read of a register. Whatever bank is selected, the device has an answer. */
    method InB(reg: Reg) returns (value: Byte)
      modifies this`strays, this`taken
      ensures strays == if Bank() == reg.Bank() then old(strays) else old(strays) + [reg]
      ensures value == Answer(answers, old(taken)) && taken == old(taken) + 1
    {
      if Bank() != reg.Bank() {
        strays := strays + [reg];
      }
      value := Answer(answers, taken);
      taken := taken + 1;
    }

    /** A read from the receive ring. The device writes there at any time, so it answers this too. */
    method ReadRing(at: nat) returns (value: Byte)
      requires at < SHMEM_TX_START
      modifies this`taken
      ensures value == Answer(answers, old(taken)) && taken == old(taken) + 1
    {
      value := Answer(answers, taken);
      taken := taken + 1;
    }

    /** `itr` has only enable bits, so or is a sum. */
    method SetMcr(itr: Byte, bank: BankNo)
      requires itr % BANKS == 0
      modifies this`mcr
      ensures Enables() == itr && Bank() == bank
    {
      mcr := itr + bank;
    }

    /** Selects a bank and forgets the enables. */
    method SwitchBankOnly(bank: BankNo)
      modifies this`mcr
      ensures Enables() == 0 && Bank() == bank
    {
      mcr := bank;
    }

    /** Selects a bank, keeps the enables and answers the bank selected before. */
    method SwitchBank(bank: BankNo) returns (oldBank: BankNo)
      modifies this`mcr
      ensures oldBank == old(Bank()) && Bank() == bank && Enables() == old(Enables())
    {
      var was := mcr;
      oldBank := was % BANKS;
      SetMcr(was / BANKS * BANKS, bank);
    }
  }

  // ----- split registers -----

  function AddrLow(addr: int): Byte {
    addr % 256
  }

  function AddrHigh(addr: int): Byte {
    PAGE_DISABLE + addr / 256 % 64
  }

  function CountLow(n: int): Byte {
    n % 256
  }

  function CountHigh(n: int): Byte {
    n / 256 % 32
  }

  /** The two address bytes give the address back exactly in the transmit half of the memory. */
  lemma AddressSurvivesExactly(addr: int)
    ensures AddrLow(addr) + 256 * AddrHigh(addr) == addr <==> SHMEM_TX_START <= addr < SHMEM_SIZE
  {
    var page := addr / 256;
    assert addr == 256 * page + addr % 256;
  }

  /** Thirteen bits of the length survive. */
  lemma CountSurvivesExactly(n: int)
    ensures CountLow(n) + 256 * CountHigh(n) == n <==> 0 <= n < 8192
  {
    var page := n / 256;
    assert n == 256 * page + n % 256;
  }
}
