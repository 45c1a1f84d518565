/** The packet buffer of irdadump/netbuf.c and its refinement of a plain byte sequence. */
module NetBuffer {
  import opened Bytes

  /** What a caller can tell about a buffer: its live bytes, the room before them and its true size. */
  datatype Layout = Layout(live: seq<Byte>, headroom: nat, size: nat) {
    ghost predicate Fits() {
      headroom + |live| <= size
    }
  }

  datatype Op =
    | PutData(bytes: seq<Byte>)
    | PrependHdr(hdr: seq<Byte>)
    | Pull(count: nat)
    | Trim(count: nat)
    | Reserve(count: nat)
    | Realloc(count: nat)
    | Recycle

  /** The pointers of the C structure are kept as offsets from `head`. */
  class NetBuf {
    var head: array<Byte>
    var data: int
    var tail: int
    var end: int
    var len: int
    var truesize: int

    /** head <= data <= tail == data + len <= end == head + truesize. */
    ghost predicate Valid()
      reads this
    {
      0 <= data <= tail <= end && tail == data + len && end == truesize == head.Length
    }

    ghost function Live(): (s: seq<Byte>)
      requires Valid()
      reads this, head
      ensures |s| == len
    {
      head[data..tail]
    }

    ghost function View(): (v: Layout)
      requires Valid()
      reads this, head
      ensures v.Fits()
    {
      Layout(Live(), data, truesize)
    }

    constructor (n: nat)
      ensures Valid() && fresh(head)
      ensures View() == Layout([], 0, n)
    {
      head := new Byte[n];
      truesize := n;
      data, tail, len, end := 0, 0, 0, n;
    }

    method Recycle()
      requires Valid()
      modifies this
      ensures Valid() && head == old(head)
      ensures Live() == [] && data == 0 && truesize == old(truesize)
      ensures View() == ApplyOp(old(View()), Op.Recycle)
    {
      data := 0;
      tail := 0;
      len := 0;
      end := truesize;
    }

    /** Changes the true size. Cutting below `tail` leaves a buffer that is no longer valid. */
    method Realloc(n: nat)
      requires 0 < n
      requires 0 <= data && 0 <= tail && head.Length == truesize
      modifies this
      ensures fresh(head) && head.Length == truesize == end == n
      ensures data == old(data) && tail == old(tail) && len == old(len)
      ensures forall i :: 0 <= i < n && i < old(head.Length) ==> head[i] == old(head[i])
      ensures old(Valid()) ==> (Valid() <==> old(tail) <= n)
      ensures old(Valid()) && old(tail) <= n ==> View() == ApplyOp(old(View()), Op.Realloc(n))
    {
      var buf := new Byte[n];
      forall i | 0 <= i < n && i < head.Length {
        buf[i] := head[i];
      }
      truesize := n;
      head := buf;
      end := n;
      assert old(Valid()) && tail <= n ==> head[data..tail] == old(head[data..tail]);
    }

    /** Opens `n` bytes behind the live ones and returns their offset; what they hold is stale. */
    method Put(n: nat) returns (tmp: nat)
      requires Valid()
      modifies this
      ensures Valid()
      ensures head == old(head) || fresh(head)
      ensures data == old(data) && len == old(len) + n && tmp == tail - n
      ensures Live()[..old(len)] == old(Live())
      ensures truesize == if old(tail) + n > old(truesize) then old(truesize) + n else old(truesize)
    {
      tmp := tail;
      tail := tail + n;
      len := len + n;
      if tail > end {
        Realloc(truesize + n);
        tmp := tail - n;
      }
      forall i | 0 <= i < old(len)
        ensures Live()[i] == old(Live())[i]
      {
        assert Live()[i] == head[data + i];
      }
    }

    /** Copies `bytes` over the live ones, from place `at` on. */
    method Store(at: nat, bytes: seq<Byte>)
      requires Valid() && at + |bytes| <= len
      modifies head
      ensures Live() == old(Live())[..at] + bytes + old(Live())[at + |bytes|..]
    {
      ghost var want := Live()[..at] + bytes + Live()[at + |bytes|..];
      forall i | 0 <= i < |bytes| {
        head[data + at + i] := bytes[i];
      }
      forall i | 0 <= i < len
        ensures Live()[i] == want[i]
      {
        assert Live()[i] == head[data + i];
      }
    }

    method PutData(bytes: seq<Byte>) returns (tmp: nat)
      requires Valid()
      modifies this, head
      ensures Valid()
      ensures head == old(head) || fresh(head)
      ensures Live() == old(Live()) + bytes && data == old(data)
      ensures View() == ApplyOp(old(View()), Op.PutData(bytes))
    {
      tmp := Put(|bytes|);
      ghost var made := Live();
      Store(tmp - data, bytes);
      assert made[|made|..] == [];
    }

    /** Opens `n` bytes in front of the live ones, moving those up when there is no room. */
    method Push(n: nat) returns (at: nat)
      requires Valid()
      modifies this, head
      ensures Valid()
      ensures head == old(head) || fresh(head)
      ensures at == data && len == old(len) + n
      ensures Live()[n..] == old(Live())
      ensures data == if old(data) < n then old(data) else old(data) - n
      ensures truesize == if old(data) < n then old(truesize) + n else old(truesize)
    {
      if data - n < 0 {
        Realloc(truesize + n);
        MoveUp(n);
        data := data + n;
        tail := tail + n;
      }
      data := data - n;
      len := len + n;
      at := data;
    }

    /** The overlapping move: the live bytes, copied `n` places up as if through a temporary. */
    method MoveUp(n: nat)
      requires Valid() && tail + n <= head.Length
      modifies head
      ensures forall i :: 0 <= i < len ==> head[data + n + i] == old(Live())[i]
    {
      forall i | data <= i < tail {
        head[i + n] := head[i];
      }
    }

    method PrependHdr(hdr: seq<Byte>) returns (at: nat)
      requires Valid()
      modifies this, head
      ensures Valid()
      ensures head == old(head) || fresh(head)
      ensures Live() == hdr + old(Live())
      ensures View() == ApplyOp(old(View()), Op.PrependHdr(hdr))
    {
      at := Push(|hdr|);
      Store(0, hdr);
    }

    /** Drops `n` bytes from the front; with fewer than that it changes nothing and fails. */
    method Pull(n: nat) returns (ok: bool)
      requires Valid()
      modifies this`data, this`len
      ensures Valid()
      ensures ok == (n <= old(len))
      ensures Live() == if ok then old(Live())[n..] else old(Live())
      ensures View() == ApplyOp(old(View()), Op.Pull(n))
    {
      if n > len {
        return false;
      }
      len := len - n;
      data := data + n;
      return true;
    }

    /** Shifts the window without looking at what it holds or how much room is left behind it. */
    method Reserve(n: nat)
      requires Valid()
      modifies this`data, this`tail
      ensures data == old(data) + n && tail == old(tail) + n
      ensures Valid() <==> old(tail) + n <= truesize
      ensures Valid() && old(len) == 0 ==> View() == ApplyOp(old(View()), Op.Reserve(n))
      ensures Valid() ==> Live() == head[old(data) + n..old(tail) + n]
    {
      data := data + n;
      tail := tail + n;
    }

    method Headroom() returns (n: int)
      requires Valid()
      ensures n == View().headroom
    {
      n := data;
    }

    method Tailroom() returns (n: int)
      requires Valid()
      ensures n == View().size - View().headroom - |View().live|
    {
      n := end - tail;
    }

    method Trim(n: nat)
      requires Valid()
      modifies this`len, this`tail
      ensures Valid()
      ensures data == old(data) && Live() == if n < old(len) then old(Live())[..n] else old(Live())
      ensures View() == ApplyOp(old(View()), Op.Trim(n))
    {
      if len > n {
        len := n;
        tail := data + n;
      }
    }

    /** The byte `i` places after `data`. Past the allocation nothing is known about it. */
    method Peek(i: nat) returns (b: Byte)
      requires Valid()
      ensures data + i < head.Length ==> b == head[data + i]
      ensures i < len ==> b == Live()[i]
    {
      if data + i < head.Length {
        b := head[data + i];
      } else {
        b := *;
      }
    }

    /** A copy of the `n` live bytes that start `at` places after `data`. */
    method CopyOut(at: nat, n: nat) returns (s: seq<Byte>)
      requires Valid() && at + n <= len
      ensures s == Live()[at..at + n]
    {
      s := head[data + at..data + at + n];
      assert forall i :: 0 <= i < n ==> s[i] == Live()[at + i];
    }

    method Perform(op: Op)
      requires Valid() && Allowed(View(), op)
      modifies this, head
      ensures Valid()
      ensures head == old(head) || fresh(head)
      ensures View() == ApplyOp(old(View()), op)
    {
      match op {
        case PutData(bytes) => var _ := PutData(bytes);
        case PrependHdr(hdr) => var _ := PrependHdr(hdr);
        case Pull(n) => var _ := Pull(n);
        case Trim(n) => Trim(n);
        case Reserve(n) => Reserve(n);
        case Realloc(n) => Realloc(n);
        case Recycle => Recycle();
      }
    }

    /** Any run of operations leaves exactly the bytes the plain sequence has after the same run. */
    method Run(ops: seq<Op>)
      requires Valid() && AllowedRun(View(), ops)
      modifies this, head
      ensures Valid()
      ensures View() == ApplyAll(old(View()), ops)
      ensures Live() == PlainAll(old(Live()), ops)
    {
      RunRefinesPlain(View(), ops);
      var i := 0;
      while i < |ops|
        invariant 0 <= i <= |ops| && Valid()
        invariant head == old(head) || fresh(head)
        invariant AllowedRun(View(), ops[i..])
        invariant ApplyAll(View(), ops[i..]) == ApplyAll(old(View()), ops)
      {
        Perform(ops[i]);
        i := i + 1;
      }
    }
  }

  /** The callers' side: room is reserved in an empty buffer, and the size never cut below the data. */
  ghost predicate Allowed(v: Layout, op: Op) {
    match op
    case Reserve(n) => v.live == [] && v.headroom + n <= v.size
    case Realloc(n) => 0 < n && v.headroom + |v.live| <= n
    case _ => true
  }

  function ApplyOp(v: Layout, op: Op): Layout {
    match op
    case PutData(bytes) =>
      v.(live := v.live + bytes,
         size := if v.headroom + |v.live| + |bytes| > v.size then v.size + |bytes| else v.size)
    case PrependHdr(hdr) =>
      if v.headroom < |hdr|
      then Layout(hdr + v.live, v.headroom, v.size + |hdr|)
      else Layout(hdr + v.live, v.headroom - |hdr|, v.size)
    case Pull(n) =>
      if n > |v.live| then v else v.(live := v.live[n..], headroom := v.headroom + n)
    case Trim(n) =>
      if n < |v.live| then v.(live := v.live[..n]) else v
    case Reserve(n) => v.(headroom := v.headroom + n)
    case Realloc(n) => v.(size := n)
    case Recycle => Layout([], 0, v.size)
  }

  ghost predicate AllowedRun(v: Layout, ops: seq<Op>)
    decreases |ops|
  {
    ops == [] || (Allowed(v, ops[0]) && AllowedRun(ApplyOp(v, ops[0]), ops[1..]))
  }

  ghost function ApplyAll(v: Layout, ops: seq<Op>): Layout
    decreases |ops|
  {
    if ops == [] then v else ApplyAll(ApplyOp(v, ops[0]), ops[1..])
  }

  /** The same operation on a plain byte sequence: no room, no sizes. */
  function Plain(s: seq<Byte>, op: Op): seq<Byte> {
    match op
    case PutData(bytes) => s + bytes
    case PrependHdr(hdr) => hdr + s
    case Pull(n) => if n > |s| then s else s[n..]
    case Trim(n) => if n < |s| then s[..n] else s
    case Reserve(_) => s
    case Realloc(_) => s
    case Recycle => []
  }

  function PlainAll(s: seq<Byte>, ops: seq<Op>): seq<Byte>
    decreases |ops|
  {
    if ops == [] then s else PlainAll(Plain(s, ops[0]), ops[1..])
  }

  lemma {:induction false} RunRefinesPlain(v: Layout, ops: seq<Op>)
    ensures ApplyAll(v, ops).live == PlainAll(v.live, ops)
    decreases |ops|
  {
    if ops != [] {
      RunRefinesPlain(ApplyOp(v, ops[0]), ops[1..]);
    }
  }

  lemma {:induction false} RunKeepsFit(v: Layout, ops: seq<Op>)
    requires v.Fits() && AllowedRun(v, ops)
    ensures ApplyAll(v, ops).Fits()
    decreases |ops|
  {
    if ops != [] {
      RunKeepsFit(ApplyOp(v, ops[0]), ops[1..]);
    }
  }

  lemma {:induction false} PlainConcat(s: seq<Byte>, a: seq<Op>, b: seq<Op>)
    ensures PlainAll(s, a + b) == PlainAll(PlainAll(s, a), b)
    decreases |a|
  {
    if a == [] {
      assert a + b == b;
    } else {
      assert (a + b)[1..] == a[1..] + b;
      PlainConcat(Plain(s, a[0]), a[1..], b);
    }
  }

  function Prepends(hdrs: seq<seq<Byte>>): seq<Op> {
    if hdrs == [] then [] else [PrependHdr(hdrs[0])] + Prepends(hdrs[1..])
  }

  /** Pulls the same headers off again, the last one first. */
  function PullsBack(hdrs: seq<seq<Byte>>): seq<Op> {
    if hdrs == [] then [] else PullsBack(hdrs[1..]) + [Pull(|hdrs[0]|)]
  }

  lemma {:induction false} PrependThenPullBack(payload: seq<Byte>, hdrs: seq<seq<Byte>>)
    ensures PlainAll(payload, Prepends(hdrs) + PullsBack(hdrs)) == payload
    decreases |hdrs|
  {
    if hdrs != [] {
      var rest := hdrs[1..];
      var s := hdrs[0] + payload;
      PrependThenPullBack(s, rest);
      var inner := Prepends(rest) + PullsBack(rest);
      var last := [Pull(|hdrs[0]|)];
      assert Prepends(hdrs) + PullsBack(hdrs) == [PrependHdr(hdrs[0])] + (inner + last);
      assert ([PrependHdr(hdrs[0])] + (inner + last))[1..] == inner + last;
      PlainConcat(s, inner, last);
      assert PlainAll(s, last) == Plain(s, last[0]);
    }
  }

  function Appends(blocks: seq<seq<Byte>>): seq<Op> {
    if blocks == [] then [] else [PutData(blocks[0])] + Appends(blocks[1..])
  }

  /** Blocks put one after the other stand behind what was there, in order, and trimming to the old length
      takes them all off again. */
  lemma {:induction false} AppendThenTrim(s: seq<Byte>, blocks: seq<seq<Byte>>)
    ensures PlainAll(s, Appends(blocks)) == s + Flatten(blocks)
    ensures PlainAll(s, Appends(blocks) + [Trim(|s|)]) == s
    decreases |blocks|
  {
    if blocks == [] {
      assert s + [] == s;
    } else {
      AppendThenTrim(s + blocks[0], blocks[1..]);
      assert Appends(blocks)[1..] == Appends(blocks[1..]);
      Associative(s, blocks[0], Flatten(blocks[1..]));
    }
    PlainConcat(s, Appends(blocks), [Trim(|s|)]);
    var whole := s + Flatten(blocks);
    assert PlainAll(whole, [Trim(|s|)]) == Plain(whole, Trim(|s|)) == s;
  }

  function TotalLength(hdrs: seq<seq<Byte>>): nat {
    if hdrs == [] then 0 else |hdrs[0]| + TotalLength(hdrs[1..])
  }

  /** Room reserved for the headers is exactly what keeps the prepends from reallocating. */
  lemma {:induction false} ReservedRoomSuffices(v: Layout, hdrs: seq<seq<Byte>>)
    ensures ApplyAll(v, Prepends(hdrs)).size == v.size <==> TotalLength(hdrs) <= v.headroom
    ensures TotalLength(hdrs) <= v.headroom
            ==> ApplyAll(v, Prepends(hdrs)).headroom == v.headroom - TotalLength(hdrs)
    ensures ApplyAll(v, Prepends(hdrs)).size >= v.size
    decreases |hdrs|
  {
    if hdrs != [] {
      ReservedRoomSuffices(ApplyOp(v, PrependHdr(hdrs[0])), hdrs[1..]);
      assert Prepends(hdrs)[1..] == Prepends(hdrs[1..]);
    }
  }
}
