/** The text header of psion/irpsion5.c, as sendfile prints it and handle_client scans it. */
module PsionHeader {
  import opened Bytes

  const TWO32 := 0x1_0000_0000
  const TWO64 := 0x1_0000_0000_0000_0000

  /** Microseconds between the palmtop's epoch and that of time(). */
  const EPOCH := 62168263200000000

  // ----- numbers as text -----

  function DigitChar(d: nat): char
    requires d < 10
  {
    '0' + d as char
  }

  predicate IsDigit(c: char) {
    '0' <= c <= '9'
  }

  function DigitValue(c: char): nat
    requires IsDigit(c)
  {
    c as int - '0' as int
  }

  /** %u and %lu. */
  function Decimal(n: nat): (s: string)
    ensures s != "" && forall c <- s :: IsDigit(c)
  {
    if n < 10 then [DigitChar(n)] else Decimal(n / 10) + [DigitChar(n % 10)]
  }

  /** %d. */
  function SignedDecimal(n: int): string {
    if n < 0 then "-" + Decimal(-n) else Decimal(n)
  }

  function Value(digits: string): nat
    requires forall c <- digits :: IsDigit(c)
  {
    if digits == "" then 0
    else
      assert forall c <- digits[..|digits| - 1] :: c in digits;
      assert digits[|digits| - 1] in digits;
      Value(digits[..|digits| - 1]) * 10 + DigitValue(digits[|digits| - 1])
  }

  predicate IsSpace(c: char) {
    c == ' ' || '\t' <= c <= '\r'
  }

  function SkipSpace(s: string): string {
    if s != "" && IsSpace(s[0]) then SkipSpace(s[1..]) else s
  }

  /** How many digits stand at the front. */
  function DigitsAhead(s: string): (n: nat)
    ensures n <= |s| && forall c <- s[..n] :: IsDigit(c)
  {
    if s != "" && IsDigit(s[0]) then
      var n := 1 + DigitsAhead(s[1..]);
      assert s[..n] == [s[0]] + s[1..][..n - 1];
      n
    else 0
  }

  /** What an unsigned int receives from the digits: negated for a minus sign, clamped to the largest
      unsigned long when they run over it. */
  function Stored(minus: bool, n: nat): Word32 {
    var m: int := n;
    if m >= TWO64 then 0xffff_ffff else (if minus then -m else m) % TWO32
  }

  /** One %u: white space, an optional sign, and at least one digit. */
  function ScanUnsigned(s: string): Option<(Word32, string)> {
    var t := SkipSpace(s);
    var minus := t != "" && t[0] == '-';
    var u := if t != "" && (t[0] == '-' || t[0] == '+') then t[1..] else t;
    var n := DigitsAhead(u);
    if n == 0 then None else Some((Stored(minus, Value(u[..n])), u[n..]))
  }

  lemma {:induction false} DecimalValue(n: nat)
    ensures Value(Decimal(n)) == n
  {
    if n >= 10 {
      DecimalValue(n / 10);
      assert Decimal(n)[..|Decimal(n)| - 1] == Decimal(n / 10);
    }
  }

  lemma {:induction false} DigitsBeforeSpace(digits: string, rest: string)
    requires forall c <- digits :: IsDigit(c)
    requires rest == "" || !IsDigit(rest[0])
    ensures DigitsAhead(digits + rest) == |digits|
  {
    if digits == "" {
      assert digits + rest == rest;
    } else {
      assert (digits + rest)[1..] == digits[1..] + rest;
      DigitsBeforeSpace(digits[1..], rest);
    }
  }

  lemma SkipToText(t: string)
    requires t != "" && !IsSpace(t[0])
    ensures SkipSpace(" " + t) == t
  {
    assert (" " + t)[1..] == t;
  }

  lemma DecimalInFront(m: nat, rest: string)
    requires rest != "" && rest[0] == ' '
    ensures var u := Decimal(m) + rest; var n := DigitsAhead(u);
            n > 0 && Value(u[..n]) == m && u[n..] == rest && IsDigit(u[0])
  {
    DecimalValue(m);
    DigitsBeforeSpace(Decimal(m), rest);
    var u := Decimal(m) + rest;
    assert u[..|Decimal(m)|] == Decimal(m) && u[|Decimal(m)|..] == rest;
    assert u[0] == Decimal(m)[0] && Decimal(m)[0] in Decimal(m);
  }

  /** A printed number, signed or not, scans back to its value modulo 2^32. */
  lemma ScanOfPrinted(n: int, rest: string)
    requires -TWO32 < n < TWO32 && rest != "" && rest[0] == ' '
    ensures ScanUnsigned(" " + SignedDecimal(n) + rest) == Some((n % TWO32, rest))
  {
    hide Decimal, Value, SkipSpace, DigitsAhead;
    var m: nat := if n < 0 then -n else n;
    var t := SignedDecimal(n) + rest;
    var u := Decimal(m) + rest;
    DecimalInFront(m, rest);
    assert t == if n < 0 then ['-'] + u else u;
    SkipToText(t);
    assert " " + SignedDecimal(n) + rest == " " + t;
    assert n < 0 ==> t[1..] == u;
  }

  // ----- the date -----

  /** The palmtop's date for a modification time, of which 32 bits are used. */
  function DateOf(mtime: int): nat {
    EPOCH + 1000000 * (mtime % TWO32)
  }

  function DateHigh(mtime: int): nat {
    DateOf(mtime) / TWO32
  }

  function DateLow(mtime: int): Word32 {
    DateOf(mtime) % TWO32
  }

  /** The time recovered from the two words, in the unsigned 64-bit arithmetic of the receiver. */
  function TimeOf(high: Word32, low: Word32): Word32 {
    (high * TWO32 + low - EPOCH) % TWO64 / 1000000 % TWO32
  }

  lemma DateFits(mtime: int)
    ensures DateOf(mtime) < TWO64 && DateHigh(mtime) < TWO32
  {
  }

  lemma TimeSurvives(mtime: int)
    ensures DateHigh(mtime) < TWO32
    ensures TimeOf(DateHigh(mtime), DateLow(mtime)) == mtime % TWO32
  {
    var date := DateOf(mtime);
    assert date == TWO32 * (date / TWO32) + date % TWO32;
    var micros := 1000000 * (mtime % TWO32);
    assert micros % TWO64 == micros;
    assert micros / 1000000 == mtime % TWO32;
  }

  // ----- the header line -----

  datatype Header =
    | File(size: Word32, mode: Word32, dateHigh: Word32, dateLow: Word32, name: string)
    | BadFields
    | NotAFile

  /** The size goes through an int. */
  function Print(size: nat, writable: bool, mtime: int, name: string): string {
    "FILE " + SignedDecimal(Signed32(size % TWO32))
    + " " + Decimal(if writable then 32 else 33)
    + " " + Decimal(DateHigh(mtime))
    + " " + Decimal(DateLow(mtime))
    + " " + name
  }

  function Scan(buf: string): Header {
    if "FILE " <= buf then
      match ScanUnsigned(buf[4..])
      case None => BadFields
      case Some((size, rest1)) =>
        match ScanUnsigned(rest1)
        case None => BadFields
        case Some((mode, rest2)) =>
          match ScanUnsigned(rest2)
          case None => BadFields
          case Some((high, rest3)) =>
            match ScanUnsigned(rest3)
            case None => BadFields
            case Some((low, rest4)) => File(size, mode, high, low, SkipSpace(rest4))
    else NotAFile
  }

  lemma SignedWordBack(size: nat)
    ensures -TWO32 < Signed32(size % TWO32) < TWO32
    ensures Signed32(size % TWO32) % TWO32 == size % TWO32
  {
  }

  lemma Reassociate(a: string, b: string, c: string, d: string, name: string)
    ensures "FILE " + a + " " + b + " " + c + " " + d + " " + name
            == "FILE" + (" " + a + (" " + b + (" " + c + (" " + d + (" " + name)))))
  {
  }

  /** Four printed numbers and a name are read in that order. */
  lemma ScanInOrder(a: int, b: int, c: int, d: int, name: string)
    requires -TWO32 < a < TWO32 && -TWO32 < b < TWO32 && -TWO32 < c < TWO32 && -TWO32 < d < TWO32
    ensures Scan("FILE " + SignedDecimal(a) + " " + SignedDecimal(b) + " " + SignedDecimal(c) + " "
                 + SignedDecimal(d) + " " + name)
            == File(a % TWO32, b % TWO32, c % TWO32, d % TWO32, SkipSpace(name))
  {
    hide ScanUnsigned, SignedDecimal, SkipSpace;
    var tail4 := " " + name;
    var tail3 := " " + SignedDecimal(d) + tail4;
    var tail2 := " " + SignedDecimal(c) + tail3;
    var tail1 := " " + SignedDecimal(b) + tail2;
    var line := "FILE" + (" " + SignedDecimal(a) + tail1);
    Reassociate(SignedDecimal(a), SignedDecimal(b), SignedDecimal(c), SignedDecimal(d), name);
    assert line[4..] == " " + SignedDecimal(a) + tail1;
    ScanOfPrinted(a, tail1);
    ScanOfPrinted(b, tail2);
    ScanOfPrinted(c, tail3);
    ScanOfPrinted(d, tail4);
    SkipOneSpace(name);
    assert "FILE " <= line;
  }

  /** Scanning what was printed gives every field back, the size modulo 2^32 and the name without
      white space in front. */
  lemma ScanOfPrint(size: nat, writable: bool, mtime: int, name: string)
    ensures DateHigh(mtime) < TWO32
    ensures Scan(Print(size, writable, mtime, name))
            == File(size % TWO32, if writable then 32 else 33, DateHigh(mtime), DateLow(mtime), SkipSpace(name))
  {
    DateFits(mtime);
    SignedWordBack(size);
    hide Scan, Decimal, SignedDecimal, SkipSpace, Signed32, DateOf, DateHigh, DateLow;
    var mode := if writable then 32 else 33;
    UnsignedPrint(mode);
    UnsignedPrint(DateHigh(mtime));
    UnsignedPrint(DateLow(mtime));
    ScanInOrder(Signed32(size % TWO32), mode, DateHigh(mtime), DateLow(mtime), name);
  }

  lemma UnsignedPrint(n: nat)
    ensures SignedDecimal(n) == Decimal(n)
  {
  }

  lemma SkipOneSpace(s: string)
    ensures SkipSpace(" " + s) == SkipSpace(s)
  {
    assert (" " + s)[1..] == s;
  }

  lemma {:induction false} SkipSpaceKeeps(s: string)
    ensures |SkipSpace(s)| <= |s|
    ensures SkipSpace(s) == s <==> s == "" || !IsSpace(s[0])
  {
    if s != "" && IsSpace(s[0]) {
      SkipSpaceKeeps(s[1..]);
    }
  }

  /** The whole round trip: size modulo 2^32, mode and time always; the name exactly when it does not
      start with white space. */
  lemma HeaderRoundTrip(size: nat, writable: bool, mtime: int, name: string)
    ensures var h := Scan(Print(size, writable, mtime, name));
            && h.File? && h.size == size % TWO32
            && h.mode == (if writable then 32 else 33)
            && TimeOf(h.dateHigh, h.dateLow) == mtime % TWO32
            && (h.name == name <==> name == "" || !IsSpace(name[0]))
  {
    ScanOfPrint(size, writable, mtime, name);
    TimeSurvives(mtime);
    SkipSpaceKeeps(name);
  }

  // ----- the format -----

  /** Numbers are written in tens, the last digit last. */
  lemma DecimalByTens(n: nat, d: nat)
    requires d < 10
    ensures Decimal(d) == ["0123456789"[d]]
    ensures n > 0 ==> Decimal(10 * n + d) == Decimal(n) + ["0123456789"[d]]
  {
  }

  /** The line as it goes out: sizes from 2^31 on come out negative. */
  lemma LinePrinted(size: nat, writable: bool, mtime: int, name: string)
    requires size < TWO32
    ensures Print(size, writable, mtime, name)
            == (if size < 0x8000_0000 then "FILE " + Decimal(size) else "FILE -" + Decimal(TWO32 - size))
               + (if writable then " 32 " else " 33 ")
               + Decimal((62168263200000000 + 1000000 * (mtime % TWO32)) / TWO32) + " "
               + Decimal((62168263200000000 + 1000000 * (mtime % TWO32)) % TWO32) + " " + name
  {
    hide Decimal;
    ModePrinted();
  }

  lemma ModePrinted()
    ensures Decimal(32) == "32" && Decimal(33) == "33"
  {
    DecimalByTens(3, 2);
    DecimalByTens(3, 3);
    DecimalByTens(0, 3);
  }

  /** The sample header in the source's comment carries the date words 14689800 and 2691219200: 12 April
      1999, 20:47:56. */
  lemma SampleTime()
    ensures TimeOf(14689800, 2691219200) == 923950076
    ensures DateHigh(923950076) == 14689800 && DateLow(923950076) == 2691219200
  {
  }
}
