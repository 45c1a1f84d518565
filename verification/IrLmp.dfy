/** The IrLMP dissector of irdadump/irlmp.c with the connection table of irdadump/irlap.c. */
module IrLmp {
  import opened Bytes
  import opened NetBuffer

  const MAX_CONNECTIONS := 15
  const LSAP_ANY: Byte := 0xff

  const CONNECT_CMD: Byte := 0x01
  const CONNECT_RSP: Byte := 0x81
  const DISCONNECT: Byte := 0x02

  const GET_INFO_BASE: Byte := 0x01
  const GET_VALUE_BY_CLASS: Byte := 0x04
  const IAS_SUCCESS: Byte := 0x00
  const IAS_INTEGER: Byte := 1

  /** The names the dissector looks for. */
  const TINYTP: seq<Byte> := ['T' as int, 'i' as int, 'n' as int, 'y' as int, 'T' as int, 'P' as int]
  const OBEX: seq<Byte> := ['O' as int, 'B' as int, 'E' as int, 'X' as int]
  const IRCOMM: seq<Byte> := ['I' as int, 'r' as int, 'C' as int, 'O' as int, 'M' as int, 'M' as int]
  const IRLPT: seq<Byte> := ['I' as int, 'r' as int, 'L' as int, 'P' as int, 'T' as int]
  const IRNET: seq<Byte> := ['I' as int, 'r' as int, 'N' as int, 'e' as int, 't' as int]

  datatype Flags = Flags(ttp: bool, obex: bool, ircomm: bool, irnet: bool)

  const NO_FLAGS := Flags(false, false, false, false)

  /** The last IAS query and the LSAP its answer named. */
  datatype LastIas = LastIas(lsapSel: Byte, flags: Flags)

  datatype Key = Key(slsap: Byte, dlsap: Byte)

  const ZERO_KEY := Key(0, 0)

  datatype Slot = Slot(valid: bool, flags: Flags, key: Key, caddr: Byte)

  /** The sub-dissectors a frame is handed to. */
  datatype Layer = TtpConnect | IrcommConnect | IrNet | Ttp | Obex | IrcommTtp | IrcommLmp

  datatype Ias = NoIas | Query(flags: Flags) | Answer(value: Word32)

  /** What one frame says to the dissector. */
  datatype Event =
    | Connect(key: Key, dlsap: Byte, caddr: Byte)
    | ConnectRsp(key: Key, slsap: Byte)
    | Disconnect(key: Key)
    | Control(key: Key)
    | Data(key: Key, ias: Ias, plain: bool)
    | LapGone(caddr: Byte)

  // ----- reading a frame -----

  /** Readable memory from `data` on, of which `len` bytes belong to the packet. */
  datatype Mem = Mem(bytes: seq<Byte>, len: nat) {
    /** g_netbuf_pull: no effect when the packet is shorter than that. */
    function Pull(n: nat): Mem
      requires n <= |bytes|
    {
      if n <= len then Mem(bytes[n..], len - n) else this
    }
  }

  /** Two length-prefixed strings of at most 255 bytes and the headers before them. */
  const MAX_READ := 2 + 1 + 256 + 256

  predicate Contains(s: seq<Byte>, name: seq<Byte>) {
    exists i :: 0 <= i <= |s| && name <= s[i..]
  }

  function FlagsOf(name: seq<Byte>, attr: seq<Byte>): Flags {
    Flags(
      Contains(CString(attr), TINYTP),
      Contains(CString(name), OBEX),
      Contains(CString(name), IRCOMM) || Contains(CString(name), IRLPT),
      Contains(CString(name), IRNET))
  }

  /** The string whose length byte stands at `i`. */
  function StringAt(s: seq<Byte>, i: nat): (t: seq<Byte>)
    requires i + 256 <= |s|
    ensures |t| < 256
  {
    var n: nat := s[i];
    s[i + 1..i + 1 + n]
  }

  function IasCommand(s: seq<Byte>): Ias
    requires |s| >= 1 + 256 + 256
  {
    var opcode := s[0] % 0x80;
    if opcode == GET_INFO_BASE || opcode == GET_VALUE_BY_CLASS then
      var name := StringAt(s, 1);
      var attr := StringAt(s, 2 + |name|);
      Query(FlagsOf(name, attr))
    else NoIas
  }

  function IasResponse(m: Mem): Ias
    requires |m.bytes| >= 2 + 9
  {
    var value := m.Pull(2).bytes;
    if m.bytes[1] == IAS_SUCCESS && value[4] == IAS_INTEGER
    then Answer(Be32(value[5], value[6], value[7], value[8]))
    else NoIas
  }

  /** The table key of a frame: source and destination as seen from the side whose frames are outgoing. */
  function KeyOf(outgoing: bool, slsap: Byte, dlsap: Byte): Key {
    if outgoing then Key(slsap, dlsap) else Key(dlsap, slsap)
  }

  function ControlEvent(ctrl: Byte, key: Key, slsap: Byte, dlsap: Byte, caddr: Byte): Event {
    if ctrl == CONNECT_CMD then Connect(key, dlsap, caddr)
    else if ctrl == CONNECT_RSP then ConnectRsp(key, slsap)
    else if ctrl == DISCONNECT then Disconnect(key)
    else Control(key)
  }

  function IasIn(rest: Mem, slsap: Byte, dlsap: Byte): Ias
    requires |rest.bytes| >= 1 + 256 + 256
  {
    if dlsap == 0 then IasCommand(rest.bytes)
    else if slsap == 0 then IasResponse(rest)
    else NoIas
  }

  function EventOf(m: Mem, outgoing: bool, caddr: Byte): (e: Event)
    requires |m.bytes| >= MAX_READ
    ensures e.Connect? ==> e.dlsap < 0x80
  {
    var dlsap := m.bytes[0] % 0x80;
    var slsap := m.bytes[1];
    var key := KeyOf(outgoing, slsap, dlsap);
    var rest := m.Pull(2);
    if m.bytes[0] >= 0x80 then ControlEvent(rest.bytes[0], key, slsap, dlsap, caddr)
    else Data(key, IasIn(rest, slsap, dlsap), dlsap != 0 && slsap != 0)
  }

  // ----- the connection table -----

  datatype State = State(ias: LastIas, conn: seq<Slot>, cache: int) {
    ghost predicate Wf() {
      |conn| == MAX_CONNECTIONS && -1 <= cache < MAX_CONNECTIONS
    }
  }

  /** The first slot from `i` on with this key, valid or not; -1 when there is none. */
  function FirstWith(conn: seq<Slot>, key: Key, i: nat := 0): (r: int)
    requires i <= |conn|
    ensures r == -1 || i <= r < |conn|
    ensures r != -1 ==> conn[r].key == key && forall j :: i <= j < r ==> conn[j].key != key
    ensures r == -1 ==> forall j :: i <= j < |conn| ==> conn[j].key != key
    decreases |conn| - i
  {
    if i == |conn| then -1 else if conn[i].key == key then i else FirstWith(conn, key, i + 1)
  }

  function FirstFree(conn: seq<Slot>, i: nat := 0): (r: int)
    requires i <= |conn|
    ensures r == -1 || i <= r < |conn|
    ensures r != -1 ==> !conn[r].valid && forall j :: i <= j < r ==> conn[j].valid
    ensures r == -1 ==> forall j :: i <= j < |conn| ==> conn[j].valid
    decreases |conn| - i
  {
    if i == |conn| then -1 else if !conn[i].valid then i else FirstFree(conn, i + 1)
  }

  /** The slot a lookup answers, which is also what it leaves in the cache. */
  function Lookup(conn: seq<Slot>, cache: int, key: Key): (r: int)
    requires -1 <= cache < |conn|
    ensures -1 <= r < |conn|
    ensures r != -1 ==> conn[r].key == key
  {
    if cache != -1 && conn[cache].key == key then cache else FirstWith(conn, key)
  }

  function IasAfter(ias: LastIas, seen: Ias): LastIas {
    match seen
    case NoIas => ias
    case Query(flags) => LastIas(LSAP_ANY, flags)
    case Answer(value) => ias.(lsapSel := value % 256)
  }

  function ConnectLayers(flags: Flags): seq<Layer> {
    (if flags.ttp then [TtpConnect] else []) + (if flags.ircomm then [IrcommConnect] else [])
    + (if flags.irnet then [IrNet] else [])
  }

  function DataLayers(flags: Flags): seq<Layer> {
    (if flags.ttp then [Ttp] else []) + (if flags.obex then [Obex] else [])
    + (if flags.ircomm then [if flags.ttp then IrcommTtp else IrcommLmp] else [])
    + (if flags.irnet then [IrNet] else [])
  }

  function Next(st: State, ev: Event): (st': State)
    requires st.Wf()
    ensures st'.Wf()
  {
    match ev
    case Connect(key, dlsap, caddr) =>
      var i := FirstFree(st.conn);
      if dlsap == st.ias.lsapSel && i != -1
      then st.(conn := st.conn[i := Slot(true, st.ias.flags, key, caddr)])
      else st
    case ConnectRsp(key, _) => st.(cache := Lookup(st.conn, st.cache, key))
    case Disconnect(key) =>
      var i := Lookup(st.conn, st.cache, key);
      State(st.ias, if i == -1 then st.conn else st.conn[i := st.conn[i].(valid := false)], i)
    case Control(_) => st
    case Data(key, ias, _) =>
      State(IasAfter(st.ias, ias), st.conn, Lookup(st.conn, st.cache, key))
    case LapGone(caddr) =>
      st.(conn := seq(|st.conn|, i requires 0 <= i < |st.conn| =>
        if st.conn[i].caddr == caddr then st.conn[i].(valid := false) else st.conn[i]))
  }

  /** What the frame is handed to, with `force` the setting that treats unknown traffic as TinyTP. */
  function Handed(force: bool, st: State, ev: Event): seq<Layer>
    requires st.Wf()
  {
    match ev
    case Connect(_, dlsap, _) =>
      if dlsap == st.ias.lsapSel then
        if FirstFree(st.conn) == -1 then [] else ConnectLayers(st.ias.flags)
      else if force && dlsap != 0 then [TtpConnect] else []
    case ConnectRsp(key, slsap) =>
      var i := Lookup(st.conn, st.cache, key);
      if i != -1 then ConnectLayers(st.conn[i].flags)
      else if force && slsap != 0 then [TtpConnect] else []
    case Data(key, _, plain) =>
      var i := Lookup(st.conn, st.cache, key);
      if i != -1 then if st.conn[i].valid then DataLayers(st.conn[i].flags) else []
      else if plain && force then [Ttp] else []
    case _ => []
  }

  const EMPTY_SLOT := Slot(false, NO_FLAGS, ZERO_KEY, 0)

  /** The start of a run. irlap_init leaves 0 in the LSAP, not LSAP_ANY. */
  function Start(lsapSel: Byte := 0): (st: State)
    ensures st.Wf()
  {
    State(LastIas(lsapSel, NO_FLAGS), seq(MAX_CONNECTIONS, _ => EMPTY_SLOT), -1)
  }

  // ----- the code -----

  class Dissector {
    var lastIas: LastIas
    const conn: array<Slot>
    var connCache: int
    const forceTtp: bool

    ghost predicate Valid()
      reads this
    {
      conn.Length == MAX_CONNECTIONS && -1 <= connCache < MAX_CONNECTIONS
    }

    ghost function Abs(): (st: State)
      requires Valid()
      reads this, conn
      ensures st.Wf()
    {
      State(lastIas, conn[..], connCache)
    }

    constructor (forceTtp: bool)
      ensures Valid() && fresh(conn) && this.forceTtp == forceTtp
      ensures Abs() == Start()
    {
      this.forceTtp := forceTtp;
      lastIas := LastIas(0, NO_FLAGS);
      conn := new Slot[MAX_CONNECTIONS](_ => EMPTY_SLOT);
      connCache := -1;
    }

    method FindConnection(slsap: Byte, dlsap: Byte) returns (i: int)
      requires Valid()
      modifies this`connCache
      ensures Valid()
      ensures i == connCache == Lookup(conn[..], old(connCache), Key(slsap, dlsap))
    {
      var key := Key(slsap, dlsap);
      if connCache != -1 {
        if conn[connCache].key == key {
          return connCache;
        }
      }
      i := 0;
      while i < MAX_CONNECTIONS
        invariant 0 <= i <= MAX_CONNECTIONS
        invariant FirstWith(conn[..], key, i) == FirstWith(conn[..], key)
      {
        if conn[i].key == key {
          connCache := i;
          return;
        }
        i := i + 1;
      }
      connCache := -1;
      i := -1;
    }

    method FindFreeConnection() returns (i: int)
      requires Valid()
      ensures i == FirstFree(conn[..])
    {
      i := 0;
      while i < MAX_CONNECTIONS
        invariant 0 <= i <= MAX_CONNECTIONS
        invariant FirstFree(conn[..], i) == FirstFree(conn[..])
      {
        if !conn[i].valid {
          return;
        }
        i := i + 1;
      }
      i := -1;
    }

    method GarbageConnection(caddr: Byte)
      requires Valid()
      modifies conn
      ensures Valid()
      ensures Abs() == Next(old(Abs()), LapGone(caddr))
    {
      var i := 0;
      while i < MAX_CONNECTIONS
        invariant 0 <= i <= MAX_CONNECTIONS
        invariant forall j :: 0 <= j < i ==>
          conn[j] == if old(conn[j]).caddr == caddr then old(conn[j]).(valid := false) else old(conn[j])
        invariant forall j :: i <= j < MAX_CONNECTIONS ==> conn[j] == old(conn[j])
      {
        if conn[i].caddr == caddr {
          conn[i] := conn[i].(valid := false);
        }
        i := i + 1;
      }
    }

    method ParseIriapCommand(buf: NetBuf)
      requires buf.Valid() && buf.data + 1 + 256 + 256 <= buf.head.Length
      modifies this`lastIas
      ensures lastIas == IasAfter(old(lastIas), IasCommand(buf.head[buf.data..]))
    {
      hide CString, Contains, StringAt;
      var opcode := buf.Peek(0);
      opcode := opcode % 0x80;
      if opcode == GET_INFO_BASE || opcode == GET_VALUE_BY_CLASS {
        var n := 1;
        var name := ReadString(buf, n);
        n := n + 1 + |name|;
        var attr := ReadString(buf, n);
        name, attr := CString(name), CString(attr);

        var ttp := StrStr(attr, TINYTP);
        lastIas := lastIas.(lsapSel := LSAP_ANY);
        var obex := StrStr(name, OBEX);
        var ircomm := StrStr(name, IRCOMM);
        if !ircomm {
          ircomm := StrStr(name, IRLPT);
        }
        var irnet := StrStr(name, IRNET);
        lastIas := lastIas.(flags := Flags(ttp, obex, ircomm, irnet));
      }
    }

    /** strstr: whether `name` begins at some place of `s`. */
    method StrStr(s: seq<Byte>, name: seq<Byte>) returns (found: bool)
      ensures found == Contains(s, name)
    {
      var i := 0;
      while i + |name| <= |s|
        invariant 0 <= i
        invariant forall j :: 0 <= j < i && j <= |s| ==> !(name <= s[j..])
        decreases |s| - i
      {
        if s[i..i + |name|] == name {
          assert name <= s[i..];
          return true;
        }
        i := i + 1;
      }
      assert forall j :: i <= j <= |s| ==> !(name <= s[j..]);
      found := false;
    }

    method ReadString(buf: NetBuf, i: nat) returns (t: seq<Byte>)
      requires buf.Valid() && buf.data + i + 256 <= buf.head.Length
      ensures t == StringAt(buf.head[buf.data..], i)
    {
      var length := buf.Peek(i);
      var n: nat := length;
      var at: nat := buf.data + i + 1;
      t := buf.head[at..at + n];
      ghost var s := buf.head[buf.data..];
      assert forall k :: 0 <= k < n ==> t[k] == s[i + 1 + k];
    }

    method ParseIriasValue(buf: NetBuf)
      requires buf.Valid() && buf.data + 9 <= buf.head.Length
      modifies this`lastIas
      ensures lastIas.flags == old(lastIas).flags
      ensures var s := buf.head[buf.data..];
              lastIas.lsapSel == if s[4] == IAS_INTEGER then Be32(s[5], s[6], s[7], s[8]) % 256
                                 else old(lastIas).lsapSel
    {
      hide Be32;
      ghost var s := buf.head[buf.data..];
      var kind := buf.Peek(4);
      assert s[4] == kind;
      if kind == IAS_INTEGER {
        var a := buf.Peek(5);
        var b := buf.Peek(6);
        var c := buf.Peek(7);
        var d := buf.Peek(8);
        assert s[5] == a && s[6] == b && s[7] == c && s[8] == d;
        lastIas := lastIas.(lsapSel := Be32(a, b, c, d) % 256);
      }
    }

    method ParseIriapResponse(buf: NetBuf)
      requires buf.Valid() && buf.data + 2 + 9 <= buf.head.Length
      modifies this`lastIas, buf`data, buf`len
      ensures buf.Valid()
      ensures lastIas == IasAfter(old(lastIas), IasResponse(Mem(old(buf.head[buf.data..]), old(buf.len))))
    {
      ghost var m := Mem(buf.head[buf.data..], buf.len);
      var rsp := buf.Peek(1);
      var _ := buf.Pull(2);
      assert buf.head[buf.data..] == m.Pull(2).bytes;
      if rsp == IAS_SUCCESS {
        ParseIriasValue(buf);
      }
    }

    /** Looks the frame's connection up under the key of its direction. */
    method FindFor(outgoing: bool, slsap: Byte, dlsap: Byte) returns (i: int)
      requires Valid()
      modifies this`connCache
      ensures Valid()
      ensures i == connCache == Lookup(conn[..], old(connCache), KeyOf(outgoing, slsap, dlsap))
    {
      if outgoing {
        i := FindConnection(slsap, dlsap);
      } else {
        i := FindConnection(dlsap, slsap);
      }
    }

    method HandOnConnect(flags: Flags) returns (layers: seq<Layer>)
      ensures layers == ConnectLayers(flags)
    {
      layers := [];
      if flags.ttp {
        layers := layers + [TtpConnect];
      }
      if flags.ircomm {
        layers := layers + [IrcommConnect];
      }
      if flags.irnet {
        layers := layers + [IrNet];
      }
    }

    method ConnectCmd(outgoing: bool, slsap: Byte, dlsap: Byte, caddr: Byte) returns (layers: seq<Layer>)
      requires Valid()
      modifies conn
      ensures Valid()
      ensures var ev := Connect(KeyOf(outgoing, slsap, dlsap), dlsap, caddr);
              Abs() == Next(old(Abs()), ev) && layers == Handed(forceTtp, old(Abs()), ev)
    {
      layers := [];
      if dlsap == lastIas.lsapSel {
        var i := FindFreeConnection();
        if i == -1 {
          return;
        }
        conn[i] := conn[i].(valid := true, caddr := caddr);
        if outgoing {
          conn[i] := conn[i].(key := Key(slsap, dlsap));
        } else {
          conn[i] := conn[i].(key := Key(dlsap, slsap));
        }
        conn[i] := conn[i].(flags := lastIas.flags);
        layers := HandOnConnect(conn[i].flags);
      } else if forceTtp && dlsap != 0 {
        layers := [TtpConnect];
      }
    }

    method ConnectRsp(outgoing: bool, slsap: Byte, dlsap: Byte) returns (layers: seq<Layer>)
      requires Valid()
      modifies this`connCache
      ensures Valid()
      ensures var ev := Event.ConnectRsp(KeyOf(outgoing, slsap, dlsap), slsap);
              Abs() == Next(old(Abs()), ev) && layers == Handed(forceTtp, old(Abs()), ev)
    {
      layers := [];
      var i := FindFor(outgoing, slsap, dlsap);
      if i != -1 {
        layers := HandOnConnect(conn[i].flags);
      } else if forceTtp && slsap != 0 {
        layers := [TtpConnect];
      }
    }

    method Disconnect(outgoing: bool, slsap: Byte, dlsap: Byte)
      requires Valid()
      modifies this`connCache, conn
      ensures Valid()
      ensures Abs() == Next(old(Abs()), Event.Disconnect(KeyOf(outgoing, slsap, dlsap)))
    {
      var i := FindFor(outgoing, slsap, dlsap);
      if i != -1 {
        conn[i] := conn[i].(valid := false);
      }
    }

    /** The part of a data frame's handling behind the IAS test. */
    method HandOnData(outgoing: bool, slsap: Byte, dlsap: Byte) returns (layers: seq<Layer>)
      requires Valid()
      modifies this`connCache
      ensures Valid()
      ensures var ev := Data(KeyOf(outgoing, slsap, dlsap), NoIas, dlsap != 0 && slsap != 0);
              Abs() == Next(old(Abs()), ev) && layers == Handed(forceTtp, old(Abs()), ev)
    {
      layers := [];
      var i := FindFor(outgoing, slsap, dlsap);
      if i != -1 {
        if conn[i].valid && conn[i].flags.ttp {
          layers := layers + [Ttp];
        }
        if conn[i].valid && conn[i].flags.obex {
          layers := layers + [Obex];
        }
        if conn[i].valid && conn[i].flags.ircomm {
          if conn[i].flags.ttp {
            layers := layers + [IrcommTtp];
          } else {
            layers := layers + [IrcommLmp];
          }
        }
        if conn[i].valid && conn[i].flags.irnet {
          layers := layers + [IrNet];
        }
      }
      if dlsap != 0 && slsap != 0 && i == -1 {
        if forceTtp {
          layers := layers + [Ttp];
        }
      }
    }

    method ControlFrame(buf: NetBuf, caddr: Byte, outgoing: bool, slsap: Byte, dlsap: Byte)
      returns (layers: seq<Layer>)
      requires Valid() && buf.Valid() && buf.data < buf.head.Length
      requires buf.head as object != conn
      modifies this, conn, buf`data, buf`len
      ensures Valid()
      ensures var ev := ControlEvent(old(buf.head[buf.data]), KeyOf(outgoing, slsap, dlsap), slsap, dlsap, caddr);
              Abs() == Next(old(Abs()), ev) && layers == Handed(forceTtp, old(Abs()), ev)
    {
      layers := [];
      var ctrl := buf.Peek(0);
      var _ := buf.Pull(2);
      if ctrl == CONNECT_CMD {
        layers := ConnectCmd(outgoing, slsap, dlsap, caddr);
      } else if ctrl == CONNECT_RSP {
        layers := ConnectRsp(outgoing, slsap, dlsap);
      } else if ctrl == DISCONNECT {
        Disconnect(outgoing, slsap, dlsap);
      }
    }

    method DataFrame(buf: NetBuf, outgoing: bool, slsap: Byte, dlsap: Byte) returns (layers: seq<Layer>)
      requires Valid() && buf.Valid() && buf.data + 1 + 256 + 256 <= buf.head.Length
      requires buf.head as object != conn
      modifies this, buf`data, buf`len
      ensures Valid()
      ensures var ias := IasIn(Mem(old(buf.head[buf.data..]), old(buf.len)), slsap, dlsap);
              var ev := Data(KeyOf(outgoing, slsap, dlsap), ias, dlsap != 0 && slsap != 0);
              Abs() == Next(old(Abs()), ev) && layers == Handed(forceTtp, old(Abs()), ev)
    {
      if dlsap == 0 {
        ParseIriapCommand(buf);
      } else if slsap == 0 {
        ParseIriapResponse(buf);
      }
      layers := HandOnData(outgoing, slsap, dlsap);
    }

    /** One frame. The buffer is the capture buffer, long enough for the two strings of a query. */
    method ParseIrlmp(buf: NetBuf, caddr: Byte, outgoing: bool) returns (layers: seq<Layer>)
      requires Valid() && buf.Valid() && buf.data + MAX_READ <= buf.head.Length
      requires buf.head as object != conn
      modifies this, conn, buf`data, buf`len
      ensures Valid()
      ensures var ev := EventOf(Mem(old(buf.head[buf.data..]), old(buf.len)), outgoing, caddr);
              Abs() == Next(old(Abs()), ev) && layers == Handed(forceTtp, old(Abs()), ev)
    {
      ghost var m := Mem(buf.head[buf.data..], buf.len);
      var first := buf.Peek(0);
      var dlsap := first % 0x80;
      var slsap := buf.Peek(1);
      var _ := buf.Pull(2);
      assert buf.head[buf.data..] == m.Pull(2).bytes;
      assert buf.head[buf.data] == m.Pull(2).bytes[0];
      if first >= 0x80 {
        layers := ControlFrame(buf, caddr, outgoing, slsap, dlsap);
      } else {
        layers := DataFrame(buf, outgoing, slsap, dlsap);
      }
    }
  }
}
