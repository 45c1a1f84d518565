/** Bytes, machine words and the small sequence facts the other modules share. */
module Bytes {
  type Byte = b: int | 0 <= b < 256

  type Word32 = w: int | 0 <= w < 0x1_0000_0000

  datatype Option<+T> = None | Some(value: T)

  /** The word with high byte `hi` and low byte `lo`, most significant byte first on the wire. */
  function Be16(hi: Byte, lo: Byte): nat {
    hi * 256 + lo
  }

  function PutBe16(n: nat): (s: seq<Byte>)
    requires n < 0x1_0000
    ensures |s| == 2 && Be16(s[0], s[1]) == n
  {
    [n / 256, n % 256]
  }

  function Be32(a: Byte, b: Byte, c: Byte, d: Byte): (w: Word32) {
    ((a * 256 + b) * 256 + c) * 256 + d
  }

  function PutBe32(w: Word32): (s: seq<Byte>)
    ensures |s| == 4 && Be32(s[0], s[1], s[2], s[3]) == w
  {
    [w / 256 / 256 / 256, w / 256 / 256 % 256, w / 256 % 256, w % 256]
  }

  lemma Be16Inverse(hi: Byte, lo: Byte)
    ensures PutBe16(Be16(hi, lo)) == [hi, lo]
  {
  }

  lemma Be32Inverse(a: Byte, b: Byte, c: Byte, d: Byte)
    ensures PutBe32(Be32(a, b, c, d)) == [a, b, c, d]
  {
    var ab := a * 256 + b;
    var abc := ab * 256 + c;
    assert Be32(a, b, c, d) / 256 == abc;
    assert abc / 256 == ab;
  }

  /** Two's complement reading of a 32-bit word. */
  function Signed32(w: Word32): int {
    if w < 0x8000_0000 then w else w - 0x1_0000_0000
  }

  /** The part of a C string before its terminator; all of `s` when there is none. */
  function CString(s: seq<Byte>): (t: seq<Byte>)
    ensures t <= s && 0 !in t
    ensures |t| < |s| ==> s[|t|] == 0
  {
    if s == [] || s[0] == 0 then [] else [s[0]] + CString(s[1..])
  }

  function Flatten<T>(parts: seq<seq<T>>): seq<T> {
    if parts == [] then [] else parts[0] + Flatten(parts[1..])
  }

  lemma Associative<T>(a: seq<T>, b: seq<T>, c: seq<T>)
    ensures a + (b + c) == a + b + c
  {
  }

  lemma SliceJoin<T>(s: seq<T>, i: nat, j: nat, k: nat)
    requires i <= j <= k <= |s|
    ensures s[i..k] == s[i..j] + s[j..k]
  {
  }

  lemma SubSlice<T>(s: seq<T>, i: nat, j: nat, a: nat, b: nat)
    requires i <= j <= |s| && a <= b <= j - i
    ensures s[i..j][a..b] == s[i + a..i + b]
  {
    forall k | 0 <= k < b - a
      ensures s[i..j][a..b][k] == s[i + a..i + b][k]
    {
      assert s[i..j][a + k] == s[i + (a + k)];
    }
  }

  lemma {:induction false} FlattenConcat<T>(a: seq<seq<T>>, b: seq<seq<T>>)
    ensures Flatten(a + b) == Flatten(a) + Flatten(b)
  {
    if a == [] {
      assert a + b == b;
    } else {
      FlattenConcat(a[1..], b);
      assert (a + b)[0] == a[0] && (a + b)[1..] == a[1..] + b;
      Associative(a[0], Flatten(a[1..]), Flatten(b));
    }
  }

  lemma FlattenSnoc<T>(a: seq<seq<T>>, x: seq<T>)
    ensures Flatten(a + [x]) == Flatten(a) + x
  {
    FlattenConcat(a, [x]);
    assert Flatten([x]) == x;
  }
}
