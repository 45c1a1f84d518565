/** What holds of the IrLMP dissector over whole runs of frames. */
module IrLmpRuns {
  import opened Bytes
  import opened IrLmp

  ghost function Run(st: State, evs: seq<Event>): (st': State)
    requires st.Wf()
    ensures st'.Wf()
    decreases |evs|
  {
    if evs == [] then st else Next(Run(st, evs[..|evs| - 1]), evs[|evs| - 1])
  }

  /** LSAPs on the wire are seven bits wide, as EventOf reads them. */
  ghost predicate WireEvents(evs: seq<Event>) {
    forall j :: 0 <= j < |evs| && evs[j].Connect? ==> evs[j].dlsap < 0x80
  }

  // ----- where a classification comes from -----

  predicate IsQuery(ev: Event) {
    ev.Data? && ev.ias.Query?
  }

  predicate IsAnswer(ev: Event) {
    ev.Data? && ev.ias.Answer?
  }

  ghost predicate HasQuery(h: seq<Event>) {
    exists j :: 0 <= j < |h| && IsQuery(h[j])
  }

  ghost predicate HasAnswer(h: seq<Event>) {
    exists j :: 0 <= j < |h| && IsAnswer(h[j])
  }

  ghost predicate LatestQuery(h: seq<Event>, q: nat) {
    q < |h| && IsQuery(h[q]) && forall j :: q < j < |h| ==> !IsQuery(h[j])
  }

  /** The answer at `a` names the LSAP, and neither a query nor an answer follows it. */
  ghost predicate Names(h: seq<Event>, a: nat, lsap: Byte) {
    && a < |h| && IsAnswer(h[a]) && h[a].ias.value % 256 == lsap
    && forall j :: a < j < |h| ==> !IsQuery(h[j]) && !IsAnswer(h[j])
  }

  ghost predicate Named(h: seq<Event>, lsap: Byte) {
    exists a: nat :: Names(h, a, lsap)
  }

  /** After history `h`, a connect to `dlsap` is classified as `flags` for the right reason: the
      latest query asked for them, and an integer answer behind that query named the LSAP. */
  ghost predicate Justified(h: seq<Event>, dlsap: Byte, flags: Flags) {
    exists q: nat, a: nat ::
      LatestQuery(h, q) && q < a && Names(h, a, dlsap) && flags == h[q].ias.flags
  }

  /** The IAS record depends on the data frames of the run only, not on the table or the cache. */
  ghost function IasOf(lsapSel: Byte, h: seq<Event>): LastIas
    decreases |h|
  {
    if h == [] then LastIas(lsapSel, NO_FLAGS)
    else
      var was := IasOf(lsapSel, h[..|h| - 1]);
      var ev := h[|h| - 1];
      if ev.Data? then IasAfter(was, ev.ias) else was
  }

  lemma {:induction false} RunIas(lsapSel: Byte, h: seq<Event>)
    ensures Run(Start(lsapSel), h).ias == IasOf(lsapSel, h)
    decreases |h|
  {
    if h != [] {
      RunIas(lsapSel, h[..|h| - 1]);
    }
  }

  lemma {:induction false} NoQueryNoFlags(lsapSel: Byte, h: seq<Event>)
    requires !HasQuery(h)
    ensures IasOf(lsapSel, h).flags == NO_FLAGS
    decreases |h|
  {
    if h != [] {
      var p := h[..|h| - 1];
      assert forall j :: 0 <= j < |p| ==> p[j] == h[j];
      NoQueryNoFlags(lsapSel, p);
      assert !IsQuery(h[|h| - 1]);
    }
  }

  /** The recorded flags after any run are those of its latest query. */
  lemma {:induction false} FlagsOfLatestQuery(lsapSel: Byte, h: seq<Event>) returns (q: nat)
    requires HasQuery(h)
    ensures LatestQuery(h, q) && IasOf(lsapSel, h).flags == h[q].ias.flags
    decreases |h|
  {
    var n := |h| - 1;
    if IsQuery(h[n]) {
      q := n;
    } else {
      var p := h[..n];
      var j :| 0 <= j < |h| && IsQuery(h[j]);
      assert IsQuery(p[j]);
      q := FlagsOfLatestQuery(lsapSel, p);
    }
  }

  /** The recorded LSAP after any run: named by an answer, undefined since a query, or the first one. */
  lemma {:induction false} LsapRecord(lsapSel: Byte, h: seq<Event>)
    ensures var lsap := IasOf(lsapSel, h).lsapSel;
            || Named(h, lsap)
            || (HasQuery(h) && lsap == LSAP_ANY)
            || (!HasQuery(h) && !HasAnswer(h) && lsap == lsapSel)
    decreases |h|
  {
    if h != [] {
      var n := |h| - 1;
      var p := h[..n];
      LsapRecord(lsapSel, p);
      var was := IasOf(lsapSel, p).lsapSel;
      var lsap := IasOf(lsapSel, h).lsapSel;
      if IsQuery(h[n]) {
      } else if IsAnswer(h[n]) {
        assert Names(h, n, lsap);
      } else if a: nat :| Names(p, a, was) {
        assert Names(h, a, lsap);
      } else if HasQuery(p) {
        var j :| 0 <= j < |p| && IsQuery(p[j]);
        assert IsQuery(h[j]);
      }
    }
  }

  /** A connect is taken into the table only for the reasons in its history. */
  lemma AcceptedConnect(lsapSel: Byte, h: seq<Event>, dlsap: Byte)
    requires dlsap < 0x80 && Run(Start(lsapSel), h).ias.lsapSel == dlsap
    ensures HasQuery(h) ==> Justified(h, dlsap, Run(Start(lsapSel), h).ias.flags)
    ensures !HasQuery(h) ==> Run(Start(lsapSel), h).ias.flags == NO_FLAGS
    ensures !HasQuery(h) ==> Named(h, dlsap) || dlsap == lsapSel
  {
    RunIas(lsapSel, h);
    LsapRecord(lsapSel, h);
    if !HasQuery(h) {
      NoQueryNoFlags(lsapSel, h);
    } else {
      var q := FlagsOfLatestQuery(lsapSel, h);
      var a: nat :| Names(h, a, dlsap);
      assert q < a;
    }
  }

  /** Every valid connection goes back to a CONNECT_CMD with its key, and when some query came before
      that frame the flags are those of the latest one and an answer behind it named the LSAP.
      Without any query the connection has no flags. */
  lemma {:induction false} Provenance(lsapSel: Byte, evs: seq<Event>, i: nat) returns (c: nat)
    requires WireEvents(evs) && i < MAX_CONNECTIONS && Run(Start(lsapSel), evs).conn[i].valid
    ensures var slot := Run(Start(lsapSel), evs).conn[i];
            && c < |evs| && evs[c].Connect? && evs[c].key == slot.key && evs[c].caddr == slot.caddr
            && (HasQuery(evs[..c]) ==> Justified(evs[..c], evs[c].dlsap, slot.flags))
            && (!HasQuery(evs[..c]) ==>
                  && slot.flags == NO_FLAGS
                  && (Named(evs[..c], evs[c].dlsap) || evs[c].dlsap == lsapSel))
    decreases |evs|
  {
    var n := |evs| - 1;
    var p := evs[..n];
    var pre := Run(Start(lsapSel), p);
    var ev := evs[n];
    if ev.Connect? && ev.dlsap == pre.ias.lsapSel && FirstFree(pre.conn) == i {
      c := n;
      AcceptedConnect(lsapSel, p, ev.dlsap);
    } else {
      c := Provenance(lsapSel, p, i);
      assert p[..c] == evs[..c];
    }
  }

  /** Started from LSAP_ANY, as the comment on queries intends, every valid connection was named by an
      integer answer. */
  lemma NamedFromLsapAny(evs: seq<Event>, i: nat) returns (c: nat, a: nat)
    requires WireEvents(evs) && i < MAX_CONNECTIONS && Run(Start(LSAP_ANY), evs).conn[i].valid
    ensures c < |evs| && evs[c].Connect? && evs[c].key == Run(Start(LSAP_ANY), evs).conn[i].key
    ensures Names(evs[..c], a, evs[c].dlsap)
  {
    c := Provenance(LSAP_ANY, evs, i);
    if HasQuery(evs[..c]) {
      var q: nat, b: nat :| LatestQuery(evs[..c], q) && q < b && Names(evs[..c], b, evs[c].dlsap);
      a := b;
    } else {
      a :| Names(evs[..c], a, evs[c].dlsap);
    }
  }

  /** But the run starts from 0: a connect to the IAS itself, with nothing asked or answered, takes a
      slot. Started from LSAP_ANY it would not. */
  lemma ConnectToIasTakesASlot(key: Key, caddr: Byte)
    ensures Run(Start(), [Connect(key, 0, caddr)]).conn[0] == Slot(true, NO_FLAGS, key, caddr)
    ensures Run(Start(LSAP_ANY), [Connect(key, 0, caddr)]).conn == Start(LSAP_ANY).conn
  {
    var evs := [Connect(key, 0, caddr)];
    assert evs[..0] == [];
    assert Run(Start(), evs) == Next(Start(), evs[0]);
    assert Run(Start(LSAP_ANY), evs) == Next(Start(LSAP_ANY), evs[0]);
  }

  /** A connect is justified exactly when it is accepted and some query came before it. */
  lemma JustifiedExactly(lsapSel: Byte, h: seq<Event>, dlsap: Byte)
    requires dlsap < 0x80
    ensures var ias := Run(Start(lsapSel), h).ias;
            Justified(h, dlsap, ias.flags) <==> ias.lsapSel == dlsap && HasQuery(h)
  {
    var ias := Run(Start(lsapSel), h).ias;
    if ias.lsapSel == dlsap && HasQuery(h) {
      AcceptedConnect(lsapSel, h, dlsap);
    }
    if Justified(h, dlsap, ias.flags) {
      var q: nat, a: nat :| LatestQuery(h, q) && q < a && Names(h, a, dlsap) && ias.flags == h[q].ias.flags;
      LastAnswerCounts(lsapSel, h, a, dlsap);
    }
  }

  lemma {:induction false} LastAnswerCounts(lsapSel: Byte, h: seq<Event>, a: nat, lsap: Byte)
    requires Names(h, a, lsap)
    ensures Run(Start(lsapSel), h).ias.lsapSel == lsap
    decreases |h|
  {
    var n := |h| - 1;
    if a < n {
      assert Names(h[..n], a, lsap);
      LastAnswerCounts(lsapSel, h[..n], a, lsap);
    }
  }

  lemma {:induction false} UnansweredQueryNamesNothing(lsapSel: Byte, h: seq<Event>, q: nat)
    requires LatestQuery(h, q) && (forall j :: q < j < |h| ==> !IsAnswer(h[j]))
    ensures Run(Start(lsapSel), h).ias.lsapSel == LSAP_ANY
    decreases |h|
  {
    var n := |h| - 1;
    if q < n {
      assert LatestQuery(h[..n], q);
      UnansweredQueryNamesNothing(lsapSel, h[..n], q);
      assert !IsQuery(h[n]) && !IsAnswer(h[n]);
    }
  }

  /** After a query that got no integer answer, no connect touches the table. */
  lemma FailedQueryClassifiesNothing(lsapSel: Byte, h: seq<Event>, q: nat, ev: Event)
    requires LatestQuery(h, q) && (forall j :: q < j < |h| ==> !IsAnswer(h[j]))
    requires ev.Connect? && ev.dlsap < 0x80
    ensures Next(Run(Start(lsapSel), h), ev) == Run(Start(lsapSel), h)
  {
    UnansweredQueryNamesNothing(lsapSel, h, q);
  }

  // ----- what the bytes of a frame say -----

  lemma {:induction false} CStringWhole(s: seq<Byte>)
    requires 0 !in s
    ensures CString(s) == s
  {
    if s != [] {
      assert s[0] in s;
      CStringWhole(s[1..]);
    }
  }

  /** An IAS query: to LSAP 0, for an attribute of a class. */
  predicate IsQueryFrame(bytes: seq<Byte>, cls: seq<Byte>, attr: seq<Byte>) {
    && |bytes| >= MAX_READ && bytes[0] == 0
    && |cls| <= 255 && |attr| <= 255
    && (bytes[2] % 0x80 == 0x01 || bytes[2] % 0x80 == 0x04)
    && bytes[3..4 + |cls|] == [|cls|] + cls
    && bytes[4 + |cls|..5 + |cls| + |attr|] == [|attr|] + attr
  }

  /** A frame is a query exactly when it goes to LSAP 0 with one of two operations. Its class and
      attribute follow, each behind its length, and are read up to a NUL: a flag is set exactly when its
      name stands in the class, or, for TinyTP, in the attribute. */
  lemma QueryByBytes(m: Mem, outgoing: bool, caddr: Byte)
    requires |m.bytes| >= MAX_READ
    ensures var ev := EventOf(m, outgoing, caddr);
            && (IsQuery(ev) <==> m.bytes[0] == 0 && m.Pull(2).bytes[0] % 0x80 in {0x01, 0x04})
            && (IsQuery(ev) ==>
                  && (ev.ias.flags.obex <==> Contains(ClassIn(m), OBEX))
                  && (ev.ias.flags.ircomm <==>
                        Contains(ClassIn(m), IRCOMM) || Contains(ClassIn(m), IRLPT))
                  && (ev.ias.flags.irnet <==> Contains(ClassIn(m), IRNET))
                  && (ev.ias.flags.ttp <==> Contains(AttributeIn(m), TINYTP)))
  {
    hide Contains, CString;
  }

  /** The text between two places. */
  function TextIn(bytes: seq<Byte>, from: nat, to: nat): seq<Byte>
    requires from <= to <= |bytes|
  {
    CString(bytes[from..to])
  }

  function ClassIn(m: Mem): seq<Byte>
    requires |m.bytes| >= MAX_READ
  {
    var body := m.Pull(2).bytes;
    var n: nat := body[1];
    TextIn(body, 2, 2 + n)
  }

  function AttributeIn(m: Mem): seq<Byte>
    requires |m.bytes| >= MAX_READ
  {
    var body := m.Pull(2).bytes;
    var n: nat := body[1];
    var k: nat := body[2 + n];
    TextIn(body, 3 + n, 3 + n + k)
  }

  /** In particular for a frame made from a class and an attribute without NUL. */
  lemma QueryByNames(m: Mem, outgoing: bool, caddr: Byte, cls: seq<Byte>, attr: seq<Byte>)
    requires m.len >= 2 && IsQueryFrame(m.bytes, cls, attr) && 0 !in cls && 0 !in attr
    ensures var ev := EventOf(m, outgoing, caddr);
            && IsQuery(ev)
            && (ev.ias.flags.obex <==> Contains(cls, OBEX))
            && (ev.ias.flags.ircomm <==> Contains(cls, IRCOMM) || Contains(cls, IRLPT))
            && (ev.ias.flags.irnet <==> Contains(cls, IRNET))
            && (ev.ias.flags.ttp <==> Contains(attr, TINYTP))
  {
    hide Contains, CString, EventOf, TextIn;
    QueryByBytes(m, outgoing, caddr);
    QueryStrings(m, cls, attr);
  }

  lemma QueryStrings(m: Mem, cls: seq<Byte>, attr: seq<Byte>)
    requires m.len >= 2 && IsQueryFrame(m.bytes, cls, attr) && 0 !in cls && 0 !in attr
    ensures ClassIn(m) == cls && AttributeIn(m) == attr && m.Pull(2).bytes[0] == m.bytes[2]
  {
    hide CString;
    var bytes, s := m.bytes, m.bytes[2..];
    assert s[1] == bytes[3..4 + |cls|][0];
    assert s[2..2 + |cls|] == bytes[3..4 + |cls|][1..];
    assert s[2 + |cls|] == bytes[4 + |cls|..5 + |cls| + |attr|][0];
    assert s[3 + |cls|..3 + |cls| + |attr|] == bytes[4 + |cls|..5 + |cls| + |attr|][1..];
    CStringWhole(cls);
    CStringWhole(attr);
  }

  /** The other frames by their bytes: bit 7 of the first marks a control frame, whose operation is the
      third byte; the LSAPs are the rest of the first byte and the second. */
  lemma ControlByBytes(m: Mem, outgoing: bool, caddr: Byte)
    requires |m.bytes| >= MAX_READ && m.len >= 2
    ensures var ev := EventOf(m, outgoing, caddr);
            var dlsap, slsap := m.bytes[0] % 0x80, m.bytes[1];
            var key := if outgoing then Key(slsap, dlsap) else Key(dlsap, slsap);
            if m.bytes[0] < 0x80 then ev.Data? && ev.key == key && (ev.plain <==> dlsap != 0 && slsap != 0)
            else if m.bytes[2] == 0x01 then ev == Connect(key, dlsap, caddr)
            else if m.bytes[2] == 0x81 then ev == ConnectRsp(key, slsap)
            else if m.bytes[2] == 0x02 then ev == Disconnect(key)
            else ev == Control(key)
  {
  }

  /** An answer names an LSAP exactly when it comes from LSAP 0 to another, reports success and holds an
      integer, and then it is the integer's last byte. */
  lemma AnswerByBytes(m: Mem, outgoing: bool, caddr: Byte)
    requires |m.bytes| >= MAX_READ && m.len >= 4
    ensures var ev := EventOf(m, outgoing, caddr);
            && (IsAnswer(ev) <==>
                  0 < m.bytes[0] < 0x80 && m.bytes[1] == 0 && m.bytes[3] == 0 && m.bytes[8] == 0x01)
            && (IsAnswer(ev) ==> ev.ias.value % 256 == m.bytes[12])
  {
    if m.bytes[0] < 0x80 && m.bytes[0] != 0 && m.bytes[1] == 0 {
      var r := m.Pull(2);
      var v := r.Pull(2);
      assert r.bytes[1] == m.bytes[3];
      assert v.bytes[4] == m.bytes[8] && v.bytes[8] == m.bytes[12];
    }
  }

  // ----- what a frame is handed to -----

  /** Which sub-dissector follows from which flag. */
  lemma LayersByFlag(flags: Flags)
    ensures TtpConnect in ConnectLayers(flags) <==> flags.ttp
    ensures IrcommConnect in ConnectLayers(flags) <==> flags.ircomm
    ensures IrNet in ConnectLayers(flags) <==> flags.irnet
    ensures Ttp in DataLayers(flags) <==> flags.ttp
    ensures Obex in DataLayers(flags) <==> flags.obex
    ensures IrcommTtp in DataLayers(flags) <==> flags.ircomm && flags.ttp
    ensures IrcommLmp in DataLayers(flags) <==> flags.ircomm && !flags.ttp
    ensures IrNet in DataLayers(flags) <==> flags.irnet
  {
    InConcat3((if flags.ttp then [TtpConnect] else []), (if flags.ircomm then [IrcommConnect] else []),
              (if flags.irnet then [IrNet] else []));
    InConcat3((if flags.ttp then [Ttp] else []), (if flags.obex then [Obex] else []),
              (if flags.ircomm then [if flags.ttp then IrcommTtp else IrcommLmp] else []));
  }

  lemma InConcat3(a: seq<Layer>, b: seq<Layer>, c: seq<Layer>)
    ensures forall x :: x in a + b + c <==> x in a || x in b || x in c
  {
  }

  lemma ObexLayer(flags: Flags)
    ensures Obex in DataLayers(flags) <==> flags.obex
    ensures Obex !in ConnectLayers(flags)
  {
    if flags.obex {
      assert DataLayers(flags)[if flags.ttp then 1 else 0] == Obex;
    }
  }

  lemma HandedToObex(force: bool, st: State, ev: Event)
    requires st.Wf() && Obex in Handed(force, st, ev)
    ensures ev.Data?
    ensures var i := Lookup(st.conn, st.cache, ev.key);
            i != -1 && st.conn[i].valid && st.conn[i].flags.obex
  {
    ObexLayer(st.ias.flags);
    if ev.Data? || ev.ConnectRsp? {
      var i := Lookup(st.conn, st.cache, ev.key);
      if i != -1 {
        ObexLayer(st.conn[i].flags);
      }
    }
  }

  /** A frame is dissected as OBEX only on a connection whose latest query before the connect asked
      for OBEX: the end the whole record is kept for. */
  lemma DissectedAsObex(force: bool, evs: seq<Event>, ev: Event) returns (c: nat, q: nat)
    requires WireEvents(evs) && Obex in Handed(force, Run(Start(), evs), ev)
    ensures ev.Data? && c < |evs| && evs[c].Connect? && evs[c].key == ev.key
    ensures LatestQuery(evs[..c], q) && evs[q].ias.flags.obex
    ensures exists a: nat :: q < a && Names(evs[..c], a, evs[c].dlsap)
  {
    var st := Run(Start(), evs);
    HandedToObex(force, st, ev);
    var i := Lookup(st.conn, st.cache, ev.key);
    c := Provenance(0, evs, i);
    var r: nat, a: nat :| LatestQuery(evs[..c], r) && r < a && Names(evs[..c], a, evs[c].dlsap)
                          && st.conn[i].flags == evs[..c][r].ias.flags;
    q := r;
  }

  /** A captured frame, or the end of a link. */
  datatype Frame = Lmp(m: Mem, outgoing: bool, caddr: Byte) | LinkLost(caddr: Byte) {
    predicate Readable() {
      Lmp? ==> |m.bytes| >= MAX_READ
    }

    function Event(): (ev: Event)
      requires Readable()
      ensures ev.Connect? ==> ev.dlsap < 0x80
    {
      if Lmp? then EventOf(m, outgoing, caddr) else LapGone(caddr)
    }
  }

  predicate AllReadable(frames: seq<Frame>) {
    forall f <- frames :: f.Readable()
  }

  function Events(frames: seq<Frame>): (evs: seq<Event>)
    requires AllReadable(frames)
    ensures |evs| == |frames| && forall i :: 0 <= i < |frames| ==> evs[i] == frames[i].Event()
  {
    seq(|frames|, i requires 0 <= i < |frames| => assert frames[i] in frames; frames[i].Event())
  }

  /** Over frames: what is dissected as OBEX goes over a connection whose connect comes behind a query for
      a class with OBEX in its name, and that query was answered. */
  lemma ObexWasAskedFor(force: bool, frames: seq<Frame>, last: Frame) returns (c: nat, q: nat)
    requires AllReadable(frames) && last.Readable()
    requires Obex in Handed(force, Run(Start(), Events(frames)), last.Event())
    ensures q < c < |frames| && frames[c].Event().Connect? && frames[c].Event().key == last.Event().key
    ensures frames[q].Lmp? && |frames[q].m.bytes| >= MAX_READ && frames[q].m.bytes[0] == 0
    ensures Contains(ClassIn(frames[q].m), OBEX)
    ensures exists a: nat :: q < a && Names(Events(frames)[..c], a, frames[c].Event().dlsap)
  {
    hide Handed, EventOf, Contains, ClassIn, AttributeIn;
    c, q := DissectedAsObex(force, Events(frames), last.Event());
    var f := frames[q];
    assert f in frames;
    QueryByBytes(f.m, f.outgoing, f.caddr);
  }

  // ----- connections do not disturb each other -----

  /** A frame and one the other way between the same two LSAPs use the same key. */
  lemma KeyIsDirectionFree(there: Mem, back: Mem, outgoing: bool, caddr: Byte)
    requires |there.bytes| >= MAX_READ && |back.bytes| >= MAX_READ
    requires there.bytes[1] < 0x80 && back.bytes[1] < 0x80
    requires there.bytes[0] % 0x80 == back.bytes[1] && back.bytes[0] % 0x80 == there.bytes[1]
    ensures EventOf(there, outgoing, caddr).key == EventOf(back, !outgoing, caddr).key
  {
  }

  /** Events of other connections: frames with another key, and the loss of another link. */
  predicate Elsewhere(ev: Event, slot: Slot) {
    if ev.LapGone? then ev.caddr != slot.caddr else ev.key != slot.key
  }

  /** An accepted connect opens a slot that was free, if there is one, with its key and the flags asked
      for, and changes nothing else. */
  lemma ConnectOpens(st: State, key: Key, caddr: Byte)
    requires st.Wf()
    ensures var st' := Next(st, Connect(key, st.ias.lsapSel, caddr));
            if forall i :: 0 <= i < MAX_CONNECTIONS ==> st.conn[i].valid then st' == st
            else exists i :: 0 <= i < MAX_CONNECTIONS && !st.conn[i].valid
                             && st' == st.(conn := st.conn[i := Slot(true, st.ias.flags, key, caddr)])
  {
    var i := FirstFree(st.conn);
    if i != -1 {
      assert !st.conn[i].valid;
    }
  }

  /** A disconnect closes the entry the lookup finds and no other. */
  lemma DisconnectCloses(st: State, key: Key, i: nat)
    requires st.Wf() && i < MAX_CONNECTIONS
    ensures var st' := Next(st, Event.Disconnect(key));
            && (st'.conn[i].valid <==> st.conn[i].valid && i != Lookup(st.conn, st.cache, key))
            && st'.conn[i].key == st.conn[i].key && st'.conn[i].flags == st.conn[i].flags && st'.ias == st.ias
  {
  }

  /** The loss of a link closes exactly its entries. */
  lemma LinkLossCloses(st: State, caddr: Byte, i: nat)
    requires st.Wf() && i < MAX_CONNECTIONS
    ensures var st' := Next(st, LapGone(caddr));
            && (st'.conn[i].valid <==> st.conn[i].valid && st.conn[i].caddr != caddr)
            && st'.conn[i].key == st.conn[i].key && st'.ias == st.ias
  {
  }

  /** Traffic of unknown connections is taken for TinyTP only where the setting says so, and never when it
      has to do with LSAP 0. */
  lemma UnknownTraffic(force: bool, st: State, key: Key, lsap: Byte, ias: Ias, plain: bool)
    requires st.Wf() && Lookup(st.conn, st.cache, key) == -1
    ensures Ttp in Handed(force, st, Data(key, ias, plain)) <==> force && plain
    ensures TtpConnect in Handed(force, st, Event.ConnectRsp(key, lsap)) <==> force && lsap != 0
    ensures lsap != st.ias.lsapSel ==>
              (TtpConnect in Handed(force, st, Connect(key, lsap, 0)) <==> force && lsap != 0)
  {
  }

  /** No event elsewhere changes a valid entry, whatever the table and the cache look like. */
  lemma OthersUntouched(st: State, ev: Event, i: nat)
    requires st.Wf() && i < MAX_CONNECTIONS && st.conn[i].valid
    requires Elsewhere(ev, st.conn[i])
    ensures Next(st, ev).conn[i] == st.conn[i]
  {
  }

  lemma {:induction false} RunLeavesOthers(st: State, evs: seq<Event>, i: nat)
    requires st.Wf() && i < MAX_CONNECTIONS && st.conn[i].valid
    requires forall j :: 0 <= j < |evs| ==> Elsewhere(evs[j], st.conn[i])
    ensures Run(st, evs).conn[i] == st.conn[i]
    decreases |evs|
  {
    if evs != [] {
      var n := |evs| - 1;
      RunLeavesOthers(st, evs[..n], i);
      OthersUntouched(Run(st, evs[..n]), evs[n], i);
    }
  }

  // ----- when a lookup finds the live connection -----

  ghost predicate OnlyHolder(conn: seq<Slot>, i: nat)
    requires i < |conn|
  {
    forall j :: 0 <= j < |conn| && j != i ==> conn[j].key != conn[i].key
  }

  /** The lookup answers slot `i` whatever the cache holds exactly when no other slot, valid or not,
      holds the same key: stale entries are found as readily as live ones. */
  lemma LookupFindsExactly(conn: seq<Slot>, i: nat)
    requires i < |conn|
    ensures (forall cache :: -1 <= cache < |conn| ==> Lookup(conn, cache, conn[i].key) == i)
            <==> OnlyHolder(conn, i)
  {
    if forall cache :: -1 <= cache < |conn| ==> Lookup(conn, cache, conn[i].key) == i {
      forall j | 0 <= j < |conn| && j != i
        ensures conn[j].key != conn[i].key
      {
        assert Lookup(conn, j, conn[i].key) == i;
      }
    }
  }

  /** Every key is connected at most once, and none is the key of an empty slot. */
  ghost predicate OneConnectPerKey(evs: seq<Event>) {
    && (forall j :: 0 <= j < |evs| && evs[j].Connect? ==> evs[j].key != ZERO_KEY)
    && (forall j, k :: 0 <= j < k < |evs| && evs[j].Connect? && evs[k].Connect? ==> evs[j].key != evs[k].key)
  }

  ghost predicate ConnectedIn(evs: seq<Event>, key: Key) {
    exists j :: 0 <= j < |evs| && evs[j].Connect? && evs[j].key == key
  }

  ghost predicate KeysDistinct(evs: seq<Event>, conn: seq<Slot>) {
    && (forall i :: 0 <= i < |conn| && conn[i].key != ZERO_KEY ==> ConnectedIn(evs, conn[i].key))
    && (forall i :: 0 <= i < |conn| && conn[i].valid ==> conn[i].key != ZERO_KEY)
    && (forall i, j :: 0 <= i < j < |conn| && conn[i].key != ZERO_KEY ==> conn[i].key != conn[j].key)
  }

  lemma NextKeepsKeysDistinct(st: State, p: seq<Event>, ev: Event)
    requires st.Wf() && KeysDistinct(p, st.conn)
    requires ev.Connect? ==> ev.key != ZERO_KEY && !ConnectedIn(p, ev.key)
    ensures KeysDistinct(p + [ev], Next(st, ev).conn)
  {
    var conn := Next(st, ev).conn;
    forall i | 0 <= i < |conn| && conn[i].key != ZERO_KEY
      ensures ConnectedIn(p + [ev], conn[i].key)
    {
      if conn[i].key == st.conn[i].key {
        var j :| 0 <= j < |p| && p[j].Connect? && p[j].key == conn[i].key;
        assert (p + [ev])[j] == p[j];
      } else {
        assert (p + [ev])[|p|] == ev;
      }
    }
  }

  lemma {:induction false} KeysStayDistinct(lsapSel: Byte, evs: seq<Event>)
    requires OneConnectPerKey(evs)
    ensures KeysDistinct(evs, Run(Start(lsapSel), evs).conn)
    decreases |evs|
  {
    if evs != [] {
      var n := |evs| - 1;
      var p := evs[..n];
      KeysStayDistinct(lsapSel, p);
      NextKeepsKeysDistinct(Run(Start(lsapSel), p), p, evs[n]);
      assert evs == p + [evs[n]];
    }
  }

  /** In a run with one connect per key every data frame of a live connection finds its entry. */
  lemma LiveConnectionIsFound(evs: seq<Event>, i: nat)
    requires OneConnectPerKey(evs) && i < MAX_CONNECTIONS && Run(Start(), evs).conn[i].valid
    ensures var st := Run(Start(), evs);
            Lookup(st.conn, st.cache, st.conn[i].key) == i
  {
    KeysStayDistinct(0, evs);
    assert OnlyHolder(Run(Start(), evs).conn, i);
    LookupFindsExactly(Run(Start(), evs).conn, i);
  }

  lemma RunSnoc(st: State, evs: seq<Event>, ev: Event)
    requires st.Wf()
    ensures Run(st, evs + [ev]) == Next(Run(st, evs), ev)
  {
    assert (evs + [ev])[..|evs|] == evs;
  }

  /** Two live connections, then both close, the cache last on the second, and the second reconnects:
      it takes the first slot, while the lookup stays with the entry it left in the second one. */
  lemma StaleEntryWins(st: State, a: Key, b: Key)
    requires st.Wf() && a != b && st.conn[0].valid && st.conn[1].valid
    requires st.conn[0].key == a && st.conn[1].key == b && st.cache == -1
    requires forall j :: 2 <= j < MAX_CONNECTIONS ==> st.conn[j].key !in {a, b}
    ensures var st' := Next(Next(Next(st, Disconnect(a)), Disconnect(b)), Connect(b, st.ias.lsapSel, 0));
            && st'.conn[0] == Slot(true, st.ias.flags, b, 0)
            && Lookup(st'.conn, st'.cache, b) == 1 && !st'.conn[1].valid
            && Handed(true, st', Data(b, NoIas, true)) == []
  {
    hide FirstFree, FirstWith;
    var s1 := Next(st, Disconnect(a));
    assert s1.cache == 0 && s1.conn == st.conn[0 := st.conn[0].(valid := false)];
    assert s1.conn[0].key == a && s1.conn[1].key == b;
    assert forall j :: 2 <= j < MAX_CONNECTIONS ==> s1.conn[j].key != b;
    var s2 := Next(s1, Disconnect(b));
    assert s2.cache == 1 && s2.conn == s1.conn[1 := s1.conn[1].(valid := false)];
    assert !s2.conn[0].valid;
    assert FirstFree(s2.conn) == 0;
  }

  lemma TwoConnections(a: Key, b: Key, other: Key, flags: Flags) returns (evs: seq<Event>)
    requires other != ZERO_KEY
    ensures WireEvents(evs)
    ensures Run(Start(), evs)
            == State(LastIas(5, flags),
                     Start().conn[0 := Slot(true, flags, a, 0)][1 := Slot(true, flags, b, 0)], -1)
  {
    hide FirstFree, FirstWith;
    var s0 := Start();
    var e1, e2 := Data(other, Query(flags), false), Data(other, Answer(5), false);
    var e3, e4 := Connect(a, 5, 0), Connect(b, 5, 0);
    evs := [] + [e1];
    RunSnoc(s0, [], e1);
    RunSnoc(s0, evs, e2);
    evs := evs + [e2];
    assert Run(s0, evs) == State(LastIas(5, flags), s0.conn, -1);
    assert !s0.conn[0].valid;
    assert FirstFree(s0.conn) == 0;
    RunSnoc(s0, evs, e3);
    evs := evs + [e3];
    var s3 := Run(s0, evs);
    assert s3.conn == s0.conn[0 := Slot(true, flags, a, 0)];
    assert s3.conn[0].valid && !s3.conn[1].valid;
    assert FirstFree(s3.conn) == 1;
    RunSnoc(s0, evs, e4);
    evs := evs + [e4];
  }

  /** With a second connect for a key the lookup can miss the live connection and find a dead one, so
      its frames are not dissected at all. */
  lemma ReconnectCanBeMissed(a: Key, b: Key, other: Key, flags: Flags) returns (evs: seq<Event>)
    requires a != ZERO_KEY && b != ZERO_KEY && a != b && other != ZERO_KEY
    ensures var st := Run(Start(), evs);
            && WireEvents(evs) && st.conn[0] == Slot(true, flags, b, 0)
            && Lookup(st.conn, st.cache, b) == 1 && !st.conn[1].valid
            && Handed(true, st, Data(b, NoIas, true)) == []
  {
    var p := TwoConnections(a, b, other, flags);
    var st := Run(Start(), p);
    StaleEntryWins(st, a, b);
    var e5, e6, e7 := Disconnect(a), Disconnect(b), Connect(b, 5, 0);
    RunSnoc(Start(), p, e5);
    RunSnoc(Start(), p + [e5], e6);
    RunSnoc(Start(), p + [e5] + [e6], e7);
    evs := p + [e5] + [e6] + [e7];
  }
}
