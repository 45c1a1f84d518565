/** The OBEX header dissector of irdadump/obex.c, on top of the packet buffer. */
module Obex {
  import opened Bytes
  import opened NetBuffer

  const HEADER_NAME: Byte := 0x01
  const HEADER_DESCRIPTION: Byte := 0x05
  const HEADER_ANAME: Byte := 0x31
  const HEADER_TYPE: Byte := 0x42
  const HEADER_TARGET: Byte := 0x46
  const HEADER_BODY: Byte := 0x48
  const HEADER_BODY_END: Byte := 0x49
  const HEADER_LENGTH: Byte := 0xc3

  /** The two high bits of a header identifier, as the value of `id & OBEX_HI_MASK` over 0x40. */
  const UNICODE := 0
  const BYTE_STREAM := 1
  const BYTE := 2
  const INT := 3

  function ClassOf(id: Byte): nat {
    id / 0x40
  }

  datatype Label = Name | Description | Length | Type | Target | Body | BodyEnd | Custom

  /** What is printed for one header. `Stray` is text taken from bytes that are not part of the header:
      bytes behind the end of the packet, or behind an unterminated string. */
  datatype Shown = Quoted(text: seq<Byte>) | ByteCount(count: nat) | Decimal(number: int) | Stray

  datatype Line = Field(tag: Label, shown: Shown) | Unterminated

  function LabelOf(id: Byte): Label {
    if id == HEADER_NAME || id == HEADER_ANAME then Name
    else if id == HEADER_DESCRIPTION then Description
    else if id == HEADER_LENGTH then Length
    else if id == HEADER_TYPE then Type
    else if id == HEADER_TARGET then Target
    else if id == HEADER_BODY then Body
    else if id == HEADER_BODY_END then BodyEnd
    else Custom
  }

  predicate IsText(tag: Label) {
    tag in {Name, Type, Target}
  }

  // ----- unicode_to_char -----

  function LowAt(s: seq<Byte>, k: nat): Byte
    requires 2 * k + 1 < |s|
  {
    s[2 * k + 1]
  }

  predicate HasLowZero(s: seq<Byte>) {
    exists k: nat :: k < |s| && 2 * k + 1 < |s| && LowAt(s, k) == 0
  }

  /** The low bytes of the 16-bit characters of `s` from the `k`th on, up to the first that is zero. */
  function LowBytes(s: seq<Byte>, k: nat := 0): (t: seq<Byte>)
    requires 2 * k <= |s|
    ensures 2 * (k + |t|) <= |s| && 0 !in t
    ensures forall i :: 0 <= i < |t| ==> t[i] == LowAt(s, k + i)
    ensures forall i :: k <= i < k + |t| ==> LowAt(s, i) != 0
    ensures 2 * (k + |t|) + 1 < |s| ==> LowAt(s, k + |t|) == 0
    decreases |s| - k
  {
    if 2 * k + 1 >= |s| || LowAt(s, k) == 0 then [] else [LowAt(s, k)] + LowBytes(s, k + 1)
  }

  /** The narrowed text of a string: None when no terminator lies inside it. */
  function Narrowed(s: seq<Byte>): (t: Option<seq<Byte>>)
    ensures t.Some? <==> HasLowZero(s)
  {
    var low := LowBytes(s);
    if 2 * |low| + 1 < |s| then
      assert LowAt(s, |low|) == 0;
      Some(low)
    else None
  }

  /** Every byte written is the original byte at 2n+1; the bytes behind the new terminator stay. */
  method UnicodeToChar(buf: array<Byte>) returns (n: nat)
    requires HasLowZero(buf[..])
    modifies buf
    ensures n < buf.Length && buf[n] == 0
    ensures Some(buf[..n]) == Narrowed(old(buf[..]))
    ensures forall i :: n < i < buf.Length ==> buf[i] == old(buf[i])
  {
    ghost var was := buf[..];
    ghost var end := |LowBytes(was)|;
    assert Narrowed(was).Some?;
    n := 0;
    buf[n] := buf[n * 2 + 1];
    while buf[n] != 0
      invariant 0 <= n <= end < buf.Length
      invariant forall i :: 0 <= i <= n ==> buf[i] == LowAt(was, i)
      invariant forall i :: n < i < buf.Length ==> buf[i] == was[i]
      decreases end - n
    {
      n := n + 1;
      buf[n] := buf[n * 2 + 1];
    }
    assert buf[..n] == LowBytes(was);
  }

  // ----- one header -----

  /** `n - 3` in 16 bits. */
  function MinusThree(n: nat): nat {
    if n < 3 then n + 0x1_0000 - 3 else n - 3
  }

  /** The step for a declared length `n`: the 3 comes back in an int. */
  function StepFor(n: nat): nat {
    3 + MinusThree(n)
  }

  /** How far the live bytes must reach for the step to depend on them alone. */
  function FixedPart(id: Byte): nat {
    if ClassOf(id) <= BYTE_STREAM then 3 else 1
  }

  function StepOf(live: seq<Byte>): nat
    requires live != [] && |live| >= FixedPart(live[0])
  {
    if ClassOf(live[0]) <= BYTE_STREAM then StepFor(Be16(live[1], live[2]))
    else if ClassOf(live[0]) == BYTE then 2
    else 5
  }

  /** The first header lies wholly inside the live bytes. */
  predicate Whole(live: seq<Byte>) {
    live != [] && |live| >= FixedPart(live[0]) && StepOf(live) <= |live|
  }

  function NarrowText(value: seq<Byte>): Shown {
    match Narrowed(value)
    case Some(text) => Quoted(text)
    case None => Stray
  }

  function ShownOf(live: seq<Byte>, isText: bool): Shown
    requires live != []
  {
    match ClassOf(live[0])
    case 0 =>
      if Whole(live) then
        NarrowText(live[3..StepOf(live)])
      else Stray
    case 1 =>
      if isText then
        if Whole(live) then Quoted(CString(live[3..StepOf(live)])) else Stray
      else if |live| >= 3 then ByteCount(StepOf(live) - 3)
      else Stray
    case 2 => Decimal(live[0])
    case _ =>
      if |live| >= 5 then Decimal(Signed32(Be32(live[1], live[2], live[3], live[4]))) else Stray
  }

  /** Copies `count` bytes behind the three of the header into a scratch string and narrows it. */
  method UnicodeText(buf: NetBuf, count: nat) returns (shown: Shown)
    requires buf.Valid()
    ensures shown == if 3 + count <= buf.len then NarrowText(buf.Live()[3..3 + count]) else Stray
  {
    if 3 + count > buf.len {
      return Stray;
    }
    var value := buf.CopyOut(3, count);
    var scratch := new Byte[count](i requires 0 <= i < count => value[i]);
    assert scratch[..] == value;
    if HasLowZero(scratch[..]) {
      var n := UnicodeToChar(scratch);
      return Quoted(scratch[..n]);
    }
    return Stray;
  }

  method StreamText(buf: NetBuf, count: nat, isText: bool) returns (shown: Shown)
    requires buf.Valid()
    ensures shown ==
            if isText then
              if 3 + count <= buf.len then Quoted(CString(buf.Live()[3..3 + count])) else Stray
            else if buf.len >= 3 then ByteCount(count)
            else Stray
  {
    shown := Stray;
    if isText {
      if 3 + count <= buf.len {
        var value := buf.CopyOut(3, count);
        shown := Quoted(CString(value));
      }
    } else if buf.len >= 3 {
      shown := ByteCount(count);
    }
  }

  method IntText(buf: NetBuf) returns (shown: Shown)
    requires buf.Valid()
    ensures shown ==
            if buf.len >= 5 then
              Decimal(Signed32(Be32(buf.Live()[1], buf.Live()[2], buf.Live()[3], buf.Live()[4])))
            else Stray
  {
    if buf.len < 5 {
      return Stray;
    }
    var a := buf.Peek(1);
    var b := buf.Peek(2);
    var c := buf.Peek(3);
    var d := buf.Peek(4);
    shown := Decimal(Signed32(Be32(a, b, c, d)));
  }

  /** Prints one header and returns the bytes it takes. */
  method ParseHeader(buf: NetBuf, isText: bool) returns (shown: Shown, step: nat)
    requires buf.Valid() && buf.len > 0
    ensures shown == ShownOf(buf.Live(), isText)
    ensures step >= 2
    ensures Whole(buf.Live()) <==> step <= |buf.Live()|
    ensures |buf.Live()| >= FixedPart(buf.Live()[0]) ==> step == StepOf(buf.Live())
    ensures Whole(buf.Live()) ==> step == StepOf(buf.Live())
  {
    hide NarrowText, CString, Be32, Signed32, Be16, MinusThree;
    shown := Stray;
    step := 0;
    var id := buf.Peek(0);
    var hi := buf.Peek(1);
    var lo := buf.Peek(2);
    var count := MinusThree(Be16(hi, lo));
    if ClassOf(id) == UNICODE {
      shown := UnicodeText(buf, count);
      step := step + 3 + count;
    } else if ClassOf(id) == BYTE_STREAM {
      shown := StreamText(buf, count, isText);
      step := step + count + 3;
    } else if ClassOf(id) == BYTE {
      shown := Decimal(id);
      step := step + 2;
    } else if ClassOf(id) == INT {
      shown := IntText(buf);
      step := step + 5;
    } else {
      assert false;
    }
  }

  // ----- the header loop -----

  function FirstField(live: seq<Byte>): Line
    requires live != []
  {
    var tag := LabelOf(live[0]);
    Field(tag, ShownOf(live, IsText(tag)))
  }

  /** What the loop prints: a function of the live bytes alone. */
  function Dissect(live: seq<Byte>): seq<Line>
    decreases |live|
  {
    if live == [] then []
    else if Whole(live) then [FirstField(live)] + Dissect(live[StepOf(live)..])
    else [FirstField(live), Unterminated]
  }

  /** Reads the identifier, prints its label and parses the header behind it. */
  method ParseField(buf: NetBuf) returns (field: Line, step: nat)
    requires buf.Valid() && buf.len > 0
    ensures field == FirstField(buf.Live())
    ensures step >= 2
    ensures Whole(buf.Live()) <==> step <= |buf.Live()|
    ensures Whole(buf.Live()) ==> step == StepOf(buf.Live())
  {
    hide ShownOf, Whole, StepOf;
    var id := buf.Peek(0);
    var tag, shown;
    if id == HEADER_NAME || id == HEADER_ANAME {
      tag := Name;
      shown, step := ParseHeader(buf, true);
    } else if id == HEADER_DESCRIPTION {
      tag := Description;
      shown, step := ParseHeader(buf, false);
    } else if id == HEADER_LENGTH {
      tag := Length;
      shown, step := ParseHeader(buf, false);
    } else if id == HEADER_TYPE {
      tag := Type;
      shown, step := ParseHeader(buf, true);
    } else if id == HEADER_TARGET {
      tag := Target;
      shown, step := ParseHeader(buf, true);
    } else if id == HEADER_BODY {
      tag := Body;
      shown, step := ParseHeader(buf, false);
    } else if id == HEADER_BODY_END {
      tag := BodyEnd;
      shown, step := ParseHeader(buf, false);
    } else {
      tag := Custom;
      shown, step := ParseHeader(buf, false);
    }
    field := Field(tag, shown);
  }

  /** One turn of the loop. */
  method ParseNext(buf: NetBuf) returns (printed: seq<Line>, ok: bool)
    requires buf.Valid() && buf.len > 0
    modifies buf`data, buf`len
    ensures buf.Valid()
    ensures Dissect(old(buf.Live())) == printed + if ok then Dissect(buf.Live()) else []
    ensures if ok then buf.len < old(buf.len) else buf.len == old(buf.len)
    ensures ok <==> Unterminated !in printed
  {
    ghost var live := buf.Live();
    var field, step := ParseField(buf);
    DissectUnfolds(live);
    ok := buf.Pull(step);
    printed := if ok then [field] else [field, Unterminated];
  }

  /** The final bit and the length; in a shorter packet they come from behind it. */
  method CommonHeader(buf: NetBuf) returns (final: bool, size: nat)
    requires buf.Valid()
    ensures buf.len >= 3 ==> final == (buf.Live()[0] >= 0x80)
    ensures buf.len >= 3 ==> size / 256 == buf.Live()[1] && size % 256 == buf.Live()[2]
  {
    var opcode := buf.Peek(0);
    var hi := buf.Peek(1);
    var lo := buf.Peek(2);
    final := opcode >= 0x80;
    size := Be16(hi, lo);
  }

  /** Prints the final bit and the length of the common packet header, drops its three bytes, if the
      packet is that long, and prints the headers behind. */
  method ParseHeaders(buf: NetBuf) returns (final: bool, size: nat, lines: seq<Line>)
    requires buf.Valid()
    modifies buf`data, buf`len
    ensures buf.Valid()
    ensures old(buf.len) >= 3 ==> final == (old(buf.Live())[0] >= 0x80)
    ensures old(buf.len) >= 3 ==> size / 256 == old(buf.Live())[1] && size % 256 == old(buf.Live())[2]
    ensures old(buf.len) >= 3 ==> lines == Dissect(old(buf.Live())[3..])
    ensures old(buf.len) < 3 ==> lines == Dissect(old(buf.Live()))
    ensures buf.len == 0 <==> Unterminated !in lines
  {
    hide Dissect, Whole, StepOf;
    DissectNothing();
    final, size := CommonHeader(buf);
    var _ := buf.Pull(3);
    ghost var start := buf.Live();
    lines := [];
    while buf.len > 0
      invariant buf.Valid()
      invariant lines + Dissect(buf.Live()) == Dissect(start)
      invariant Unterminated !in lines
      decreases buf.len
    {
      ghost var live := buf.Live();
      var printed, ok := ParseNext(buf);
      assert lines + Dissect(live) == lines + printed + if ok then Dissect(buf.Live()) else [];
      lines := lines + printed;
      if !ok {
        return;
      }
    }
  }

  lemma DissectNothing()
    ensures Dissect([]) == []
  {
  }

  lemma DissectUnfolds(live: seq<Byte>)
    requires live != []
    ensures Whole(live) ==> Dissect(live) == [FirstField(live)] + Dissect(live[StepOf(live)..])
    ensures !Whole(live) ==> Dissect(live) == [FirstField(live), Unterminated]
    ensures !Whole(live) ==> Unterminated in Dissect(live)
  {
    if !Whole(live) {
      assert Dissect(live)[1] == Unterminated;
    }
  }

  // ----- what the steps are -----

  /** A declared length below 3 wraps past 64 KiB; from 3 on the step is the declared length. */
  lemma StepOfDeclaredLength(n: nat)
    requires n < 0x1_0000
    ensures MinusThree(n) == (n - 3) % 0x1_0000
    ensures n < 3 ==> StepFor(n) == n + 0x1_0000
    ensures n >= 3 ==> StepFor(n) == n
    ensures StepFor(n) >= 3
  {
  }

  // ----- round trip and truncation -----

  /** A header as IrOBEX 1.2 section 2.1 lays it out. */
  datatype Header =
    | Text(id: Byte, value: seq<Byte>)
    | Blob(id: Byte, value: seq<Byte>)
    | One(id: Byte, octet: Byte)
    | Four(id: Byte, word: Word32)
  {
    predicate Wf() {
      match this
      case Text(id, value) => ClassOf(id) == UNICODE && |value| + 3 < 0x1_0000
      case Blob(id, value) => ClassOf(id) == BYTE_STREAM && |value| + 3 < 0x1_0000
      case One(id, _) => ClassOf(id) == BYTE
      case Four(id, _) => ClassOf(id) == INT
    }

    function Encode(): (s: seq<Byte>)
      requires Wf()
      ensures |s| >= 2
    {
      match this
      case Text(id, value) => [id] + PutBe16(|value| + 3) + value
      case Blob(id, value) => [id] + PutBe16(|value| + 3) + value
      case One(id, octet) => [id, octet]
      case Four(id, word) => [id] + PutBe32(word)
    }

    /** What the dissector ought to print, in terms of the header's own fields. The one-byte class
        prints the identifier again, not the byte it carries. */
    function Line(): Line {
      var tag := LabelOf(id);
      Field(tag,
            match this
            case Text(_, value) =>
              NarrowText(value)
            case Blob(_, value) => if IsText(tag) then Quoted(CString(value)) else ByteCount(|value|)
            case One(id, _) => Decimal(id)
            case Four(_, word) => Decimal(Signed32(word)))
    }
  }

  predicate AllWf(hs: seq<Header>) {
    forall h <- hs :: h.Wf()
  }

  function EncodeAll(hs: seq<Header>): seq<Byte>
    requires AllWf(hs)
  {
    if hs == [] then [] else hs[0].Encode() + EncodeAll(hs[1..])
  }

  function Lines(hs: seq<Header>): seq<Line> {
    if hs == [] then [] else [hs[0].Line()] + Lines(hs[1..])
  }

  /** One encoded header in front of anything is taken whole and printed as it should be. */
  lemma DissectOne(h: Header, rest: seq<Byte>)
    requires h.Wf()
    ensures Whole(h.Encode() + rest) && StepOf(h.Encode() + rest) == |h.Encode()|
    ensures Dissect(h.Encode() + rest) == [h.Line()] + Dissect(rest)
  {
    var e := h.Encode();
    var live := e + rest;
    assert live[0] == h.id;
    if h.Text? || h.Blob? {
      StepOfDeclaredLength(|h.value| + 3);
      assert live[1] == e[1] && live[2] == e[2];
      assert live[3..StepOf(live)] == h.value;
    }
    assert live[|e|..] == rest;
  }

  // ----- what is printed, by the numbers of IrOBEX 1.2 section 2.1 -----

  /** A byte stream is shown as text for Type and Target alone, and else as its size. */
  lemma ByteStreamPrints(id: Byte, value: seq<Byte>, rest: seq<Byte>)
    requires 0x40 <= id < 0x80 && |value| + 3 < 0x1_0000
    ensures var tag := if id == 0x42 then Type else if id == 0x46 then Target
                       else if id == 0x48 then Body else if id == 0x49 then BodyEnd else Custom;
            var shown := if id == 0x42 || id == 0x46 then Quoted(CString(value)) else ByteCount(|value|);
            Dissect([id, (|value| + 3) / 256, (|value| + 3) % 256] + value + rest)
            == [Field(tag, shown)] + Dissect(rest)
  {
    hide Dissect, Whole, StepOf, CString;
    DissectOne(Blob(id, value), rest);
    assert Blob(id, value).Encode() == [id, (|value| + 3) / 256, (|value| + 3) % 256] + value;
  }

  /** Each character in two bytes, the high one 0, and a terminator. */
  function Wide(text: seq<Byte>): seq<Byte> {
    seq(2 * |text| + 2, i requires 0 <= i < 2 * |text| + 2 =>
      if i % 2 == 1 && i / 2 < |text| then text[i / 2] else 0)
  }

  lemma WideIsNarrowed(text: seq<Byte>)
    requires 0 !in text
    ensures NarrowText(Wide(text)) == Quoted(text)
  {
    var s := Wide(text);
    var low := LowBytes(s);
    forall i | 0 <= i <= |text|
      ensures LowAt(s, i) == if i < |text| then text[i] else 0
    {
      assert (2 * i + 1) % 2 == 1 && (2 * i + 1) / 2 == i;
    }
    assert LowAt(s, |text|) == 0;
    assert forall i :: 0 <= i < |text| ==> text[i] in text;
    assert low == text;
  }

  lemma UnicodePrints(id: Byte, text: seq<Byte>, rest: seq<Byte>)
    requires id < 0x40 && 0 !in text && |Wide(text)| + 3 < 0x1_0000
    ensures var tag := if id == 0x01 || id == 0x31 then Name else if id == 0x05 then Description else Custom;
            var n := |Wide(text)| + 3;
            Dissect([id, n / 256, n % 256] + Wide(text) + rest) == [Field(tag, Quoted(text))] + Dissect(rest)
  {
    hide Dissect, Whole, StepOf, NarrowText, Wide;
    var n := |Wide(text)| + 3;
    WideIsNarrowed(text);
    DissectOne(Text(id, Wide(text)), rest);
    assert Text(id, Wide(text)).Encode() == [id, n / 256, n % 256] + Wide(text);
  }

  /** The identifier is printed, not the byte behind it. */
  lemma BytePrints(id: Byte, octet: Byte, rest: seq<Byte>)
    requires 0x80 <= id < 0xc0
    ensures Dissect([id, octet] + rest) == [Field(Custom, Decimal(id))] + Dissect(rest)
  {
    hide Dissect, Whole, StepOf;
    DissectOne(One(id, octet), rest);
  }

  lemma IntPrints(id: Byte, a: Byte, b: Byte, c: Byte, d: Byte, rest: seq<Byte>)
    requires id >= 0xc0
    ensures var n := 0x100_0000 * a + 0x1_0000 * b + 0x100 * c + d;
            var tag := if id == 0xc3 then Length else Custom;
            Dissect([id, a, b, c, d] + rest)
            == [Field(tag, Decimal(if a < 0x80 then n else n - 0x1_0000_0000))] + Dissect(rest)
  {
    hide Dissect, Whole, StepOf;
    var word := Be32(a, b, c, d);
    assert word == 0x100_0000 * a + 0x1_0000 * b + 0x100 * c + d;
    Be32Inverse(a, b, c, d);
    DissectOne(Four(id, word), rest);
    assert Four(id, word).Encode() == [id, a, b, c, d];
  }

  // ----- lists of headers -----

  lemma {:induction false} RoundTrip(hs: seq<Header>)
    requires AllWf(hs)
    ensures Dissect(EncodeAll(hs)) == Lines(hs)
  {
    if hs != [] {
      RoundTrip(hs[1..]);
      DissectOne(hs[0], EncodeAll(hs[1..]));
    }
  }

  /** The number of headers that end at or before byte `k`. */
  function Inside(hs: seq<Header>, k: nat): (m: nat)
    requires AllWf(hs)
    ensures m <= |hs|
  {
    if hs == [] || |hs[0].Encode()| > k then 0
    else 1 + Inside(hs[1..], k - |hs[0].Encode()|)
  }

  /** `Inside` counts right: that many headers fit in `k` bytes, and one more does not. */
  lemma {:induction false} InsideIsExact(hs: seq<Header>, k: nat)
    requires AllWf(hs)
    ensures |EncodeAll(hs[..Inside(hs, k)])| <= k
    ensures Inside(hs, k) < |hs| ==> k < |EncodeAll(hs[..Inside(hs, k) + 1])|
    decreases |hs|
  {
    if hs == [] {
    } else {
      var first := |hs[0].Encode()|;
      var m := Inside(hs, k);
      if first > k {
        assert hs[..1][1..] == [];
      } else {
        InsideIsExact(hs[1..], k - first);
        assert hs[..m][1..] == hs[1..][..m - 1];
        if m < |hs| {
          assert hs[..m + 1][1..] == hs[1..][..m];
        }
      }
    }
  }

  /** A proper prefix of one header is never taken for a whole one. */
  lemma CutHeaderIsNotWhole(h: Header, k: nat)
    requires h.Wf() && 0 < k < |h.Encode()|
    ensures !Whole(h.Encode()[..k])
  {
    var live := h.Encode()[..k];
    assert live[0] == h.id;
    if (h.Text? || h.Blob?) && k >= 3 {
      StepOfDeclaredLength(|h.value| + 3);
      assert live[1] == h.Encode()[1] && live[2] == h.Encode()[2];
    }
  }

  /** `lines` is what a dissector should print for the first `k` bytes of the encoding: the headers
      wholly inside as before, and the cut marker exactly when `k` is not a header boundary. */
  ghost predicate CutReads(hs: seq<Header>, k: nat, lines: seq<Line>)
    requires AllWf(hs)
  {
    var m := Inside(hs, k);
    if |EncodeAll(hs[..m])| == k then
      lines == Lines(hs[..m])
    else
      && m < |hs| && |lines| == m + 2 && lines[..m] == Lines(hs[..m])
      && lines[m].Field? && lines[m].tag == LabelOf(hs[m].id) && lines[m + 1] == Unterminated
  }

  /** Putting one printed header in front of a cut dissection. */
  lemma ConsCut(hs: seq<Header>, m: nat, lines: seq<Line>, rest: seq<Line>)
    requires AllWf(hs) && 0 < m <= |hs| && lines == [hs[0].Line()] + rest
    ensures hs[..m][1..] == hs[1..][..m - 1]
    ensures Lines(hs[..m]) == [hs[0].Line()] + Lines(hs[1..][..m - 1])
    ensures |EncodeAll(hs[..m])| == |hs[0].Encode()| + |EncodeAll(hs[1..][..m - 1])|
    ensures |rest| >= m - 1 ==> lines[..m] == [hs[0].Line()] + rest[..m - 1]
  {
    assert hs[..m][1..] == hs[1..][..m - 1];
    if |rest| >= m - 1 {
      assert lines[..m] == [hs[0].Line()] + rest[..m - 1];
    }
  }

  lemma CutReadsCons(hs: seq<Header>, k: nat, lines: seq<Line>, rest: seq<Line>)
    requires AllWf(hs) && hs != [] && |hs[0].Encode()| <= k
    requires lines == [hs[0].Line()] + rest
    requires CutReads(hs[1..], k - |hs[0].Encode()|, rest)
    ensures CutReads(hs, k, lines)
  {
    var m := Inside(hs, k);
    ConsCut(hs, m, lines, rest);
    if |rest| == m + 1 {
      assert lines[m] == rest[m - 1] && lines[m + 1] == rest[m];
    }
  }

  lemma CutReadsInFirst(hs: seq<Header>, k: nat)
    requires AllWf(hs) && hs != [] && k < |hs[0].Encode()|
    ensures CutReads(hs, k, Dissect(EncodeAll(hs)[..k]))
  {
    if k > 0 {
      CutHeaderIsNotWhole(hs[0], k);
      var live := EncodeAll(hs)[..k];
      assert live == hs[0].Encode()[..k] && live[0] == hs[0].id;
      DissectUnfolds(live);
    }
  }

  lemma CutBehindFirst(hs: seq<Header>, k: nat) returns (rest: seq<Byte>)
    requires AllWf(hs) && hs != [] && |hs[0].Encode()| <= k <= |EncodeAll(hs)|
    ensures k - |hs[0].Encode()| <= |EncodeAll(hs[1..])|
    ensures rest == EncodeAll(hs[1..])[..k - |hs[0].Encode()|]
    ensures EncodeAll(hs)[..k] == hs[0].Encode() + rest
  {
    rest := EncodeAll(hs[1..])[..k - |hs[0].Encode()|];
  }

  /** Cut anywhere, the headers wholly inside the prefix come out as before; nothing else does, and
      the cut is reported exactly when it is not a header boundary. */
  lemma {:induction false} Truncation(hs: seq<Header>, k: nat)
    requires AllWf(hs) && k <= |EncodeAll(hs)|
    ensures CutReads(hs, k, Dissect(EncodeAll(hs)[..k]))
    decreases |hs|
  {
    if hs == [] {
    } else if |hs[0].Encode()| > k {
      CutReadsInFirst(hs, k);
    } else {
      var first := hs[0].Encode();
      var rest := CutBehindFirst(hs, k);
      DissectOne(hs[0], rest);
      Truncation(hs[1..], k - |first|);
      CutReadsCons(hs, k, Dissect(first + rest), Dissect(rest));
    }
  }

  /** No printed header line is mistaken for the cut marker. */
  lemma {:induction false} LinesAreFields(hs: seq<Header>)
    ensures Unterminated !in Lines(hs)
  {
    if hs != [] {
      LinesAreFields(hs[1..]);
    }
  }

  // ----- which packets are taken to the end -----

  /** The header at the front of bytes that hold one whole and declare its length truly. */
  function HeaderAtFront(live: seq<Byte>): Header
    requires Whole(live)
  {
    var id := live[0];
    match ClassOf(id)
    case 0 => Text(id, live[3..StepOf(live)])
    case 1 => Blob(id, live[3..StepOf(live)])
    case 2 => One(id, live[1])
    case _ => Four(id, Be32(live[1], live[2], live[3], live[4]))
  }

  lemma FrontIsEncoding(live: seq<Byte>) returns (h: Header)
    requires Whole(live) && StepOf(live) < 0x1_0000
    ensures h.Wf() && h.Encode() == live[..StepOf(live)]
  {
    h := HeaderAtFront(live);
    if ClassOf(live[0]) <= BYTE_STREAM {
      WideFrontIsEncoding(live);
    } else if ClassOf(live[0]) == INT {
      Be32Inverse(live[1], live[2], live[3], live[4]);
    }
  }

  lemma WideFrontIsEncoding(live: seq<Byte>)
    requires Whole(live) && StepOf(live) < 0x1_0000 && ClassOf(live[0]) <= BYTE_STREAM
    ensures HeaderAtFront(live).Wf()
    ensures HeaderAtFront(live).Encode() == live[..StepOf(live)]
  {
    var declared := Be16(live[1], live[2]);
    StepOfDeclaredLength(declared);
    Be16Inverse(live[1], live[2]);
    var value := live[3..declared];
    assert [live[0]] + [live[1], live[2]] + value == live[..declared];
  }

  lemma WholeStep(live: seq<Byte>)
    requires Whole(live)
    ensures live != [] && FixedPart(live[0]) <= |live| && 2 <= StepOf(live) <= |live|
  {
  }

  lemma TailIsTaken(live: seq<Byte>)
    requires live != [] && Unterminated !in Dissect(live)
    ensures Whole(live) && Unterminated !in Dissect(live[StepOf(live)..])
  {
    DissectUnfolds(live);
  }

  lemma EncodeCons(h: Header, hs: seq<Header>)
    requires h.Wf() && AllWf(hs)
    ensures AllWf([h] + hs) && EncodeAll([h] + hs) == h.Encode() + EncodeAll(hs)
  {
    assert ([h] + hs)[1..] == hs;
  }

  lemma {:induction false} TakenWholeIsEncoding(live: seq<Byte>) returns (hs: seq<Header>)
    requires |live| < 0x1_0000 && Unterminated !in Dissect(live)
    ensures AllWf(hs) && EncodeAll(hs) == live
    decreases |live|
  {
    hide Dissect, Whole, StepOf;
    if live == [] {
      hs := [];
    } else {
      TailIsTaken(live);
      WholeStep(live);
      var step := StepOf(live);
      var h := FrontIsEncoding(live);
      var rest := TakenWholeIsEncoding(live[step..]);
      hs := [h] + rest;
      EncodeCons(h, rest);
      assert live == live[..step] + live[step..];
    }
  }

  /** Below 64 KiB the dissector gets to the end without complaint on exactly the bytes that are the
      encoding of some list of headers. */
  lemma AcceptsExactlyEncodings(live: seq<Byte>)
    requires |live| < 0x1_0000
    ensures Unterminated !in Dissect(live) <==> exists hs: seq<Header> :: AllWf(hs) && EncodeAll(hs) == live
  {
    if Unterminated !in Dissect(live) {
      var hs := TakenWholeIsEncoding(live);
    }
    if hs: seq<Header> :| AllWf(hs) && EncodeAll(hs) == live {
      RoundTrip(hs);
      LinesAreFields(hs);
    }
  }

  /** An encoding never declares a length that leaves out its own three bytes of header. */
  lemma EncodingDeclaresEnough(hs: seq<Header>)
    requires AllWf(hs) && hs != [] && ClassOf(EncodeAll(hs)[0]) == BYTE_STREAM
    ensures |EncodeAll(hs)| >= 3 && Be16(EncodeAll(hs)[1], EncodeAll(hs)[2]) >= 3
  {
    var e := hs[0].Encode();
    assert EncodeAll(hs)[0] == e[0] == hs[0].id;
    assert EncodeAll(hs)[1] == e[1] && EncodeAll(hs)[2] == e[2];
  }

  /** The bound is needed: a header that declares length 0 takes 64 KiB without complaint. */
  lemma ZeroLengthSwallowsAll(filler: seq<Byte>)
    requires |filler| == 0x1_0000 - 3
    ensures var live := [HEADER_BODY, 0, 0] + filler;
            Unterminated !in Dissect(live) && forall hs: seq<Header> :: AllWf(hs) ==> EncodeAll(hs) != live
  {
    var live: seq<Byte> := [HEADER_BODY, 0, 0] + filler;
    StepOfDeclaredLength(0);
    assert live[StepOf(live)..] == [];
    assert Dissect(live) == [Field(Body, ShownOf(live, false))];
    forall hs: seq<Header> | AllWf(hs)
      ensures EncodeAll(hs) != live
    {
      if hs != [] && ClassOf(EncodeAll(hs)[0]) == BYTE_STREAM {
        EncodingDeclaresEnough(hs);
      }
    }
  }
}
