/** The capture log of irdadump/capture.c: a libpcap file of Linux cooked packets. */
module Capture {
  import opened Bytes

  const MAGIC: Word32 := 0xa1b2_c3d4
  const VERSION_MAJOR := 2
  const VERSION_MINOR := 0
  const DLT_LINUX_IRDA: Word32 := 144
  const FILE_HDR_LEN := 24
  const REC_HDR_LEN := 16
  const SLL_HDR_LEN := 16
  const SLL_ADDRLEN := 8
  const SNAPLEN: Word32 := 2050 + 16

  const PACKET_HOST: Byte := 0
  const PACKET_OUTGOING: Byte := 4

  /** A packet as the writer is handed it. The address bytes past the length are whatever the stack
      held. */
  datatype Packet = Packet(
    seconds: int, micros: int, data: seq<Byte>,
    pktType: Byte, hwType: Word16, addrLen: Byte, addr: seq<Byte>, protocol: Word16)
  {
    predicate Wf() {
      |addr| == SLL_ADDRLEN && |data| < 0x8000_0000 - SLL_HDR_LEN
    }
  }

  type Word16 = w: int | 0 <= w < 0x1_0000

  /** A packet as the reader gives it back. */
  datatype Record = Record(seconds: Word32, micros: Word32, len: int, outgoing: bool, protocol: Word16, data: seq<Byte>)

  // ----- words in the machine's own order, least significant byte first -----

  function Le16(s: seq<Byte>): Word16
    requires |s| == 2
  {
    Be16(s[1], s[0])
  }

  function PutLe16(w: Word16): (s: seq<Byte>)
    ensures |s| == 2 && Le16(s) == w
  {
    [w % 256, w / 256]
  }

  function Le32(s: seq<Byte>): Word32
    requires |s| == 4
  {
    Be32(s[3], s[2], s[1], s[0])
  }

  function PutLe32(w: Word32): (s: seq<Byte>)
    ensures |s| == 4 && Le32(s) == w
  {
    [w % 256, w / 256 % 256, w / 256 / 256 % 256, w / 256 / 256 / 256]
  }

  function Low32(n: int): Word32 {
    n % 0x1_0000_0000
  }

  // ----- the format -----

  function FileHeader(): (s: seq<Byte>)
    ensures |s| == FILE_HDR_LEN
  {
    PutLe32(MAGIC) + PutLe16(VERSION_MAJOR) + PutLe16(VERSION_MINOR) + PutLe32(0) + PutLe32(0)
    + PutLe32(SNAPLEN) + PutLe32(DLT_LINUX_IRDA)
  }

  /** The packet types of the kernel go over unchanged; any other becomes 0xffff. */
  function SllType(pktType: Byte): Word16 {
    if pktType <= PACKET_OUTGOING then pktType else 0xffff
  }

  /** The cooked header: types and lengths in network order, the protocol as it came. */
  function SllHeader(p: Packet): (s: seq<Byte>)
    requires p.Wf()
    ensures |s| == SLL_HDR_LEN
  {
    PutBe16(SllType(p.pktType)) + PutBe16(p.hwType) + PutBe16(p.addrLen) + p.addr + PutLe16(p.protocol)
  }

  function RecordHeader(p: Packet): (s: seq<Byte>)
    requires p.Wf()
    ensures |s| == REC_HDR_LEN
  {
    var total: Word32 := Low32(|p.data| + SLL_HDR_LEN);
    PutLe32(Low32(p.seconds)) + PutLe32(Low32(p.micros)) + PutLe32(total) + PutLe32(total)
  }

  function EncodeRecord(p: Packet): (s: seq<Byte>)
    requires p.Wf()
    ensures |s| == REC_HDR_LEN + SLL_HDR_LEN + |p.data|
  {
    RecordHeader(p) + SllHeader(p) + p.data
  }

  predicate AllWf(ps: seq<Packet>) {
    forall p <- ps :: p.Wf()
  }

  function EncodeLog(ps: seq<Packet>): seq<Byte>
    requires AllWf(ps)
  {
    if ps == [] then [] else EncodeRecord(ps[0]) + EncodeLog(ps[1..])
  }

  /** What the reader ought to return for a packet. */
  function RecordOf(p: Packet): Record {
    Record(Low32(p.seconds), Low32(p.micros), |p.data|, p.pktType != PACKET_HOST, p.protocol, p.data)
  }

  function RecordsOf(ps: seq<Packet>): seq<Record> {
    if ps == [] then [] else [RecordOf(ps[0])] + RecordsOf(ps[1..])
  }

  /** The reader's view of the bytes at a file position: a record and the bytes it takes, or None where
      it returns -1. */
  function DecodeRecord(s: seq<Byte>): (r: Option<(Record, nat)>)
    ensures r.Some? ==> REC_HDR_LEN + SLL_HDR_LEN <= r.value.1 <= |s|
  {
    if |s| < REC_HDR_LEN + SLL_HDR_LEN then None
    else
      var len := Signed32(Low32(Le32(s[12..16]) - SLL_HDR_LEN));
      var rest := s[REC_HDR_LEN + SLL_HDR_LEN..];
      var got := ReadResult(rest, len);
      if got.0 == len then
        Some((Record(Le32(s[0..4]), Le32(s[4..8]), len, Le16(s[16..18]) != 0, Le16(s[30..32]), got.1),
              REC_HDR_LEN + SLL_HDR_LEN + |got.1|))
      else None
  }

  /** read(): the count and the bytes. A negative count, huge as a size_t, is refused with -1. */
  function ReadResult(left: seq<Byte>, count: int): (int, seq<Byte>) {
    if count < 0 then (-1, [])
    else if count <= |left| then (count, left[..count])
    else (|left|, left)
  }

  /** Everything the reader returns before its first -1. */
  function DecodeLog(s: seq<Byte>): seq<Record>
    decreases |s|
  {
    match DecodeRecord(s)
    case None => []
    case Some((record, n)) => [record] + DecodeLog(s[n..])
  }

  predicate HeaderAccepted(s: seq<Byte>) {
    && |s| >= FILE_HDR_LEN
    && Le32(s[0..4]) == MAGIC && Le16(s[4..6]) == VERSION_MAJOR && Le16(s[6..8]) == VERSION_MINOR
    && Le32(s[20..24]) == DLT_LINUX_IRDA
  }

  // ----- the code -----

  /** An open file: its bytes and the position of the descriptor. */
  class LogFile {
    var bytes: seq<Byte>
    var pos: nat

    ghost predicate Valid()
      reads this
    {
      pos <= |bytes|
    }

    function Left(): seq<Byte>
      requires pos <= |bytes|
      reads this
    {
      bytes[pos..]
    }

    constructor (bytes: seq<Byte>)
      ensures Valid() && this.bytes == bytes && pos == 0
    {
      this.bytes := bytes;
      pos := 0;
    }

    method Write(s: seq<Byte>)
      requires Valid() && pos == |bytes|
      modifies this
      ensures Valid() && bytes == old(bytes) + s && pos == |bytes|
    {
      bytes := bytes + s;
      pos := |bytes|;
    }

    method Read(count: int) returns (rc: int, s: seq<Byte>)
      requires Valid()
      modifies this`pos
      ensures Valid() && (rc, s) == ReadResult(old(Left()), count) && pos == old(pos) + |s|
    {
      var left := bytes[pos..];
      if count < 0 {
        rc, s := -1, [];
      } else if count <= |left| {
        rc, s := count, left[..count];
      } else {
        rc, s := |left|, left;
      }
      pos := pos + |s|;
    }

    method CapwriteInit()
      requires Valid() && pos == |bytes|
      modifies this
      ensures Valid() && bytes == old(bytes) + FileHeader() && pos == |bytes|
    {
      Write(FileHeader());
    }

    method CapwriteDump(p: Packet)
      requires Valid() && pos == |bytes| && p.Wf()
      modifies this
      ensures Valid() && bytes == old(bytes) + EncodeRecord(p) && pos == |bytes|
    {
      Write(RecordHeader(p));
      Write(SllHeader(p));
      Write(p.data);
      Associative3(old(bytes), RecordHeader(p), SllHeader(p), p.data);
    }

    method CapreadCheck() returns (ok: bool)
      requires Valid()
      modifies this`pos
      ensures Valid()
      ensures ok == HeaderAccepted(old(Left()))
      ensures ok ==> Left() == old(Left())[FILE_HDR_LEN..]
    {
      hide Le16, Le32;
      ghost var left := Left();
      var rc, s := Read(FILE_HDR_LEN);
      if rc != FILE_HDR_LEN {
        return false;
      }
      assert s[0..4] == left[0..4] && s[4..6] == left[4..6] && s[6..8] == left[6..8] && s[20..24] == left[20..24];
      ok := Le32(s[0..4]) == MAGIC && Le16(s[4..6]) == VERSION_MAJOR && Le16(s[6..8]) == VERSION_MINOR
            && Le32(s[20..24]) == DLT_LINUX_IRDA;
    }

    method CapreadGet() returns (record: Option<Record>)
      requires Valid()
      modifies this`pos
      ensures Valid()
      ensures DecodeRecord(old(Left())).None? <==> record.None?
      ensures record.Some? ==> DecodeRecord(old(Left())).value.0 == record.value
                               && Left() == old(Left())[DecodeRecord(old(Left())).value.1..]
    {
      hide Le16, Le32, Low32, Signed32;
      ghost var s := Left();
      var rc, hdr := Read(REC_HDR_LEN);
      if rc != REC_HDR_LEN {
        return None;
      }
      var len := Signed32(Low32(Le32(hdr[12..16]) - SLL_HDR_LEN));
      var sll;
      rc, sll := Read(SLL_HDR_LEN);
      if rc != SLL_HDR_LEN {
        return None;
      }
      var outgoing := Le16(sll[0..2]) != 0;
      var protocol := Le16(sll[14..16]);
      assert hdr == s[0..16];
      assert sll == s[16..32];
      SubSlice(s, 0, 16, 0, 4);
      SubSlice(s, 0, 16, 4, 8);
      SubSlice(s, 0, 16, 12, 16);
      SubSlice(s, 16, 32, 0, 2);
      SubSlice(s, 16, 32, 14, 16);
      assert Left() == s[REC_HDR_LEN + SLL_HDR_LEN..];
      var data;
      rc, data := Read(len);
      if rc != len {
        return None;
      }
      record := Some(Record(Le32(hdr[0..4]), Le32(hdr[4..8]), len, outgoing, protocol, data));
    }

    /** Writes a whole log. */
    method WriteLog(ps: seq<Packet>)
      requires Valid() && bytes == [] && AllWf(ps)
      modifies this
      ensures Valid() && bytes == FileHeader() + EncodeLog(ps)
    {
      hide FileHeader, EncodeRecord;
      CapwriteInit();
      var i := 0;
      while i < |ps|
        invariant 0 <= i <= |ps| && Valid() && pos == |bytes|
        invariant bytes + EncodeLog(ps[i..]) == FileHeader() + EncodeLog(ps)
      {
        ghost var was := bytes;
        assert ps[i..][1..] == ps[i + 1..] && ps[i..][0] == ps[i];
        CapwriteDump(ps[i]);
        Associative(was, EncodeRecord(ps[i]), EncodeLog(ps[i + 1..]));
        i := i + 1;
      }
    }

    /** Reads a log until the reader returns -1. */
    method ReadLog() returns (ok: bool, records: seq<Record>)
      requires Valid()
      modifies this`pos
      ensures Valid()
      ensures ok == HeaderAccepted(old(Left()))
      ensures records == if ok then DecodeLog(old(Left())[FILE_HDR_LEN..]) else []
    {
      hide DecodeRecord, DecodeLog, HeaderAccepted;
      records := [];
      ok := CapreadCheck();
      if !ok {
        return;
      }
      ghost var all := Left();
      while true
        invariant Valid() && records + DecodeLog(Left()) == DecodeLog(all)
        decreases |bytes| - pos
      {
        ghost var left := Left();
        DecodeLogUnfolds(left);
        var record := CapreadGet();
        if record.None? {
          return;
        }
        Associative(records, [record.value], DecodeLog(Left()));
        records := records + [record.value];
      }
    }
  }

  lemma DecodeLogUnfolds(s: seq<Byte>)
    ensures DecodeRecord(s).None? ==> DecodeLog(s) == []
    ensures DecodeRecord(s).Some? ==>
              DecodeLog(s) == [DecodeRecord(s).value.0] + DecodeLog(s[DecodeRecord(s).value.1..])
  {
  }

  lemma Associative3(a: seq<Byte>, b: seq<Byte>, c: seq<Byte>, d: seq<Byte>)
    ensures a + b + c + d == a + (b + c + d)
  {
  }

  // ----- the layouts, byte by byte -----

  /** A word of four bytes, the least significant one first. */
  function Little(a: Byte, b: Byte, c: Byte, d: Byte): nat {
    a + 0x100 * b + 0x1_0000 * c + 0x100_0000 * d
  }

  lemma LittleIsLe32(s: seq<Byte>, i: nat)
    requires i + 4 <= |s|
    ensures Le32(s[i..i + 4]) == Little(s[i], s[i + 1], s[i + 2], s[i + 3])
  {
  }

  lemma SameWord(s: seq<Byte>, t: seq<Byte>)
    requires |s| == |t| == 4 && Le32(s) == Le32(t)
    ensures s == t
  {
    Be32Inverse(s[3], s[2], s[1], s[0]);
    Be32Inverse(t[3], t[2], t[1], t[0]);
  }

  lemma SameShort(s: seq<Byte>, t: seq<Byte>)
    requires |s| == |t| == 2 && Le16(s) == Le16(t)
    ensures s == t
  {
    Be16Inverse(s[1], s[0]);
    Be16Inverse(t[1], t[0]);
  }

  lemma HeaderWords()
    ensures PutLe32(MAGIC) == [0xd4, 0xc3, 0xb2, 0xa1] && PutLe32(0) == [0, 0, 0, 0]
    ensures PutLe32(SNAPLEN) == [0x12, 0x08, 0, 0] && PutLe32(DLT_LINUX_IRDA) == [144, 0, 0, 0]
    ensures PutLe16(VERSION_MAJOR) == [2, 0] && PutLe16(VERSION_MINOR) == [0, 0]
  {
    hide Le32, Be32;
    MagicWord();
    SmallWord(0);
    SmallWord(SNAPLEN);
    SmallWord(DLT_LINUX_IRDA);
  }

  lemma MagicWord()
    ensures PutLe32(MAGIC) == [0xd4, 0xc3, 0xb2, 0xa1]
  {
    hide Le32, Be32;
    assert MAGIC / 256 == 0xa1_b2c3 && 0xa1_b2c3 / 256 == 0xa1b2;
  }

  lemma SmallWord(w: Word32)
    requires w < 0x1_0000
    ensures PutLe32(w) == [w % 256, w / 256, 0, 0]
  {
    hide Le32, Be32;
  }

  /** Magic, version 2.0, time zone and accuracy 0, snap length 2066, network 144. */
  lemma FileHeaderBytes()
    ensures FileHeader() == [0xd4, 0xc3, 0xb2, 0xa1, 2, 0, 0, 0] + [0, 0, 0, 0, 0, 0, 0, 0]
                            + [0x12, 0x08, 0, 0] + [144, 0, 0, 0]
  {
    hide PutLe32, PutLe16;
    HeaderWords();
  }

  /** Of another file's header the reader looks at all but the time zone, the accuracy and the snap
      length. */
  lemma HeaderAcceptedByBytes(s: seq<Byte>)
    ensures HeaderAccepted(s)
            <==> |s| >= 24 && s[..8] == [0xd4, 0xc3, 0xb2, 0xa1, 2, 0, 0, 0] && s[20..24] == [144, 0, 0, 0]
  {
    hide PutLe32, PutLe16, Le32, Le16;
    HeaderWords();
    if HeaderAccepted(s) {
      SameWord(s[0..4], PutLe32(MAGIC));
      SameShort(s[4..6], PutLe16(VERSION_MAJOR));
      SameShort(s[6..8], PutLe16(VERSION_MINOR));
      SameWord(s[20..24], PutLe32(DLT_LINUX_IRDA));
      assert s[..8] == s[0..4] + s[4..6] + s[6..8];
    }
    if |s| >= 24 && s[..8] == [0xd4, 0xc3, 0xb2, 0xa1, 2, 0, 0, 0] {
      SubSlice(s, 0, 8, 0, 4);
      SubSlice(s, 0, 8, 4, 6);
      SubSlice(s, 0, 8, 6, 8);
      assert s[0..8] == s[..8];
      assert s[0..4] == PutLe32(MAGIC) && s[4..6] == PutLe16(VERSION_MAJOR) && s[6..8] == PutLe16(VERSION_MINOR);
    }
  }

  /** The record header: seconds, microseconds, and twice the length with the cooked header. */
  lemma RecordLayout(p: Packet)
    requires p.Wf()
    ensures var s := RecordHeader(p);
            && Little(s[0], s[1], s[2], s[3]) == p.seconds % 0x1_0000_0000
            && Little(s[4], s[5], s[6], s[7]) == p.micros % 0x1_0000_0000
            && Little(s[8], s[9], s[10], s[11]) == |p.data| + 16
            && Little(s[12], s[13], s[14], s[15]) == |p.data| + 16
  {
    hide PutLe32, Le32, Little;
    var s := RecordHeader(p);
    var total := PutLe32(Low32(|p.data| + SLL_HDR_LEN));
    assert s[0..4] == PutLe32(Low32(p.seconds)) && s[4..8] == PutLe32(Low32(p.micros));
    assert s[8..12] == total && s[12..16] == total;
    LittleIsLe32(s, 0);
    LittleIsLe32(s, 4);
    LittleIsLe32(s, 8);
    LittleIsLe32(s, 12);
  }

  /** On any bytes: the reader goes by the second length, the original one, and returns a record exactly
      when that is at least 16 and the bytes it promises are there, or when it is 15: then the failed
      read's -1 equals the length -1 and passes for success. */
  lemma ReaderByBytes(s: seq<Byte>)
    requires |s| >= 32
    ensures var n := Little(s[12], s[13], s[14], s[15]);
            var r := DecodeRecord(s);
            && (r.Some? <==> n == 15 || (16 <= n < 0x8000_0010 && 16 + n <= |s|))
            && (r.Some? ==>
                  && r.value.0.len == n - 16
                  && (if n == 15 then r.value.1 == 32 && r.value.0.data == []
                      else r.value.1 == 16 + n && r.value.0.data == s[32..16 + n])
                  && r.value.0.seconds == Little(s[0], s[1], s[2], s[3])
                  && r.value.0.micros == Little(s[4], s[5], s[6], s[7])
                  && (r.value.0.outgoing <==> s[16] != 0 || s[17] != 0)
                  && r.value.0.protocol == Little(s[30], s[31], 0, 0))
  {
    hide Le32, Le16, Little, Signed32, Low32;
    LittleIsLe32(s, 0);
    LittleIsLe32(s, 4);
    LittleIsLe32(s, 12);
    ShortsOf(s);
    var n := Little(s[12], s[13], s[14], s[15]);
    LengthOf(n);
    if 16 <= n < 0x8000_0010 && 16 + n <= |s| {
      assert s[32..][..n - 16] == s[32..16 + n];
    }
  }

  lemma ShortsOf(s: seq<Byte>)
    requires |s| >= 32
    ensures Le16(s[30..32]) == Little(s[30], s[31], 0, 0)
    ensures Le16(s[16..18]) != 0 <==> s[16] != 0 || s[17] != 0
  {
  }

  /** The length without the cooked header, as an int. */
  lemma LengthOf(n: Word32)
    ensures var len := Signed32(Low32(n - SLL_HDR_LEN));
            if n == 15 || 16 <= n < 0x8000_0010 then len == n - 16 else len < -1
  {
  }

  // ----- round trip and truncation -----

  lemma HeaderIsAccepted(rest: seq<Byte>)
    ensures HeaderAccepted(FileHeader() + rest)
    ensures (FileHeader() + rest)[FILE_HDR_LEN..] == rest
  {
    hide PutLe16, PutLe32, Le16, Le32;
    var s := FileHeader() + rest;
    assert s[0..4] == PutLe32(MAGIC);
    assert s[4..6] == PutLe16(VERSION_MAJOR);
    assert s[6..8] == PutLe16(VERSION_MINOR);
    assert s[20..24] == PutLe32(DLT_LINUX_IRDA);
  }

  /** The fields of the two headers, read back from where the reader looks for them. */
  lemma HeaderFields(p: Packet, rest: seq<Byte>)
    requires p.Wf()
    ensures var s := RecordHeader(p) + SllHeader(p) + rest;
            && Le32(s[0..4]) == Low32(p.seconds) && Le32(s[4..8]) == Low32(p.micros)
            && Le32(s[8..12]) == Le32(s[12..16]) == Low32(|p.data| + SLL_HDR_LEN)
            && (Le16(s[16..18]) != 0 <==> p.pktType != PACKET_HOST)
            && Le16(s[30..32]) == p.protocol
  {
    hide PutLe16, PutLe32, PutBe16, Le16, Le32, Low32, SllType;
    var s := RecordHeader(p) + SllHeader(p) + rest;
    assert s[0..4] == PutLe32(Low32(p.seconds));
    assert s[4..8] == PutLe32(Low32(p.micros));
    assert s[8..12] == PutLe32(Low32(|p.data| + SLL_HDR_LEN));
    assert s[12..16] == PutLe32(Low32(|p.data| + SLL_HDR_LEN));
    assert s[16..18] == PutBe16(SllType(p.pktType));
    assert s[30..32] == PutLe16(p.protocol);
    NetworkOrderKeepsZero(SllType(p.pktType));
    HostTypeIsZero(p.pktType);
  }

  lemma HostTypeIsZero(pktType: Byte)
    ensures SllType(pktType) == 0 <==> pktType == PACKET_HOST
  {
  }

  /** The cooked header as its format lays it out: type, link type and address length in network order
      at offsets 0, 2 and 4, the address at 6, the protocol as it came at 14. */
  lemma SllLayout(p: Packet)
    requires p.Wf()
    ensures var s := SllHeader(p);
            && Be16(s[0], s[1]) == (if p.pktType <= PACKET_OUTGOING then p.pktType else 0xffff)
            && Be16(s[2], s[3]) == p.hwType && Be16(s[4], s[5]) == p.addrLen
            && s[6..14] == p.addr && Le16(s[14..16]) == p.protocol
  {
    hide PutBe16, PutLe16, Be16, Le16;
    var s := SllHeader(p);
    var a, b, c := PutBe16(SllType(p.pktType)), PutBe16(p.hwType), PutBe16(p.addrLen);
    assert s[0] == a[0] && s[1] == a[1] && s[2] == b[0] && s[3] == b[1] && s[4] == c[0] && s[5] == c[1];
    assert s[14..16] == PutLe16(p.protocol);
  }

  /** The reader compares the type without turning its bytes; for zero that makes no difference. */
  lemma NetworkOrderKeepsZero(w: Word16)
    ensures Le16(PutBe16(w)) == 0 <==> w == 0
  {
  }

  lemma LengthSurvives(n: nat)
    requires n < 0x8000_0000 - SLL_HDR_LEN
    ensures Signed32(Low32(Low32(n + SLL_HDR_LEN) - SLL_HDR_LEN)) == n
  {
  }

  lemma DecodeOne(p: Packet, rest: seq<Byte>)
    requires p.Wf()
    ensures DecodeRecord(EncodeRecord(p) + rest) == Some((RecordOf(p), |EncodeRecord(p)|))
    ensures DecodeLog(EncodeRecord(p) + rest) == [RecordOf(p)] + DecodeLog(rest)
  {
    hide RecordHeader, SllHeader, Le32, Le16, Low32, Signed32;
    var s := EncodeRecord(p) + rest;
    var heads := RecordHeader(p) + SllHeader(p);
    assert s == heads + (p.data + rest);
    HeaderFields(p, p.data + rest);
    LengthSurvives(|p.data|);
    assert s[REC_HDR_LEN + SLL_HDR_LEN..] == p.data + rest;
    assert (p.data + rest)[..|p.data|] == p.data;
    assert s[|EncodeRecord(p)|..] == rest;
  }

  lemma {:induction false} LogRoundTrip(ps: seq<Packet>)
    requires AllWf(ps)
    ensures DecodeLog(EncodeLog(ps)) == RecordsOf(ps)
  {
    hide EncodeRecord, RecordOf, DecodeRecord;
    if ps == [] {
      NothingLeft([]);
    } else {
      LogRoundTrip(ps[1..]);
      DecodeOne(ps[0], EncodeLog(ps[1..]));
    }
  }

  lemma NothingLeft(s: seq<Byte>)
    requires |s| < REC_HDR_LEN + SLL_HDR_LEN
    ensures DecodeLog(s) == []
  {
  }

  /** The number of records that end at or before byte `k`. */
  function Inside(ps: seq<Packet>, k: nat): (m: nat)
    requires AllWf(ps)
    ensures m <= |ps|
  {
    if ps == [] || |EncodeRecord(ps[0])| > k then 0
    else 1 + Inside(ps[1..], k - |EncodeRecord(ps[0])|)
  }

  lemma {:induction false} InsideIsExact(ps: seq<Packet>, k: nat)
    requires AllWf(ps)
    ensures |EncodeLog(ps[..Inside(ps, k)])| <= k
    ensures Inside(ps, k) < |ps| ==> k < |EncodeLog(ps[..Inside(ps, k) + 1])|
    decreases |ps|
  {
    hide EncodeRecord;
    if ps != [] {
      var m := Inside(ps, k);
      if |EncodeRecord(ps[0])| > k {
        assert ps[..1][1..] == [];
      } else {
        InsideIsExact(ps[1..], k - |EncodeRecord(ps[0])|);
        assert ps[..m][1..] == ps[1..][..m - 1];
        if m < |ps| {
          assert ps[..m + 1][1..] == ps[1..][..m];
        }
      }
    }
  }

  /** A record cut short is not returned. */
  lemma CutRecordIsRefused(p: Packet, k: nat)
    requires p.Wf() && k < |EncodeRecord(p)|
    ensures DecodeRecord(EncodeRecord(p)[..k]).None?
  {
    hide RecordHeader, SllHeader, Le32, Le16, Low32, Signed32;
    if k >= REC_HDR_LEN + SLL_HDR_LEN {
      var s := EncodeRecord(p)[..k];
      var cut := p.data[..k - REC_HDR_LEN - SLL_HDR_LEN];
      assert s == RecordHeader(p) + SllHeader(p) + cut;
      HeaderFields(p, cut);
      LengthSurvives(|p.data|);
      assert s[REC_HDR_LEN + SLL_HDR_LEN..] == cut;
    }
  }

  /** A log cut at any byte gives exactly the records wholly inside, in order, and then -1. */
  lemma {:induction false} Truncation(ps: seq<Packet>, k: nat)
    requires AllWf(ps) && k <= |EncodeLog(ps)|
    ensures DecodeLog(EncodeLog(ps)[..k]) == RecordsOf(ps[..Inside(ps, k)])
    decreases |ps|
  {
    hide EncodeRecord, RecordOf, DecodeRecord;
    if ps == [] {
      NothingLeft([]);
    } else {
      var first := EncodeRecord(ps[0]);
      var s := EncodeLog(ps)[..k];
      if |first| > k {
        assert s == first[..k];
        CutRecordIsRefused(ps[0], k);
      } else {
        var rest := EncodeLog(ps[1..])[..k - |first|];
        assert s == first + rest;
        DecodeOne(ps[0], rest);
        Truncation(ps[1..], k - |first|);
        var m := Inside(ps, k);
        assert ps[..m][1..] == ps[1..][..m - 1] && ps[..m][0] == ps[0];
      }
    }
  }

  /** A log as written, cut anywhere behind its file header and read again. */
  method WriteCutRead(ps: seq<Packet>, k: nat) returns (ok: bool, records: seq<Record>)
    requires AllWf(ps) && k <= |EncodeLog(ps)|
    ensures ok && records == RecordsOf(ps[..Inside(ps, k)])
    ensures k == |EncodeLog(ps)| ==> records == RecordsOf(ps)
  {
    hide EncodeLog, DecodeLog, HeaderAccepted, FileHeader;
    var written := new LogFile([]);
    written.WriteLog(ps);
    var log := new LogFile(written.bytes[..FILE_HDR_LEN + k]);
    assert log.bytes == FileHeader() + EncodeLog(ps)[..k];
    HeaderIsAccepted(EncodeLog(ps)[..k]);
    assert log.Left() == log.bytes;
    ok, records := log.ReadLog();
    Truncation(ps, k);
    if k == |EncodeLog(ps)| {
      assert EncodeLog(ps)[..k] == EncodeLog(ps);
      LogRoundTrip(ps);
    }
  }
}
