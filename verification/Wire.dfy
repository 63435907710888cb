/** Messages as bytes: little-endian numbers and terminated strings, written and read back. */
module Wire {
  import opened Basics

  type Bytes = seq<byte>

  const MAX_MSGLEN := 8000
  const STRING_ROOM := 2047

  // ----- Writing ------------------------------------------------------------------------------------

  function ByteOf(c: int): Bytes { [c % 256] }

  function ShortOf(c: int): Bytes { [c % 256, c / 256 % 256] }

  function LongOf(c: int): Bytes { [c % 256, c / 256 % 256, c / 65536 % 256, c / 16777216 % 256] }

  function StringOf(s: Bytes): Bytes { s + [0] }

  // ----- Reading ------------------------------------------------------------------------------------

  /** What was read and the bytes behind it, or the end of the message came first. */
  datatype Read<T> = Bad | Got(value: T, rest: Bytes)

  function Signed16(b0: int, b1: int): int {
    var x := b0 + 256 * b1;
    if x < 0x8000 then x else x - 0x1_0000
  }

  function Signed32(b0: int, b1: int, b2: int, b3: int): int {
    var x := b0 + 256 * b1 + 65536 * b2 + 16777216 * b3;
    if x < 0x8000_0000 then x else x - 0x1_0000_0000
  }

  function TakeByte(b: Bytes): Read<int> { if b == [] then Bad else Got(b[0], b[1..]) }

  function TakeShort(b: Bytes): Read<int> {
    if |b| < 2 then Bad else Got(Signed16(b[0], b[1]), b[2..])
  }

  function TakeLong(b: Bytes): Read<int> {
    if |b| < 4 then Bad
    else Got(Signed32(b[0], b[1], b[2], b[3]), b[4..])
  }

  /** A string ends at a zero, at a byte 255, which reads as -1, or when `room` bytes are stored. */
  function TakeString(b: Bytes, room: nat): (r: Read<Bytes>)
    ensures r.Got? ==> |r.value| <= room && |r.rest| <= |b|
  {
    if room == 0 then Got([], b)
    else if b == [] then Bad
    else if b[0] == 0 || b[0] == 255 then Got([], b[1..])
    else match TakeString(b[1..], room - 1)
      case Bad => Bad
      case Got(s, rest) => Got([b[0]] + s, rest)
  }

  /** What a fixed array of `size` characters keeps of a string. */
  function Truncated(s: Bytes, size: nat): (r: Bytes)
    requires size > 0
    ensures r <= s && |r| < size && (|r| == size - 1 || r == s)
  {
    if |s| < size then s else s[..size - 1]
  }

  // ----- Round trips --------------------------------------------------------------------------------

  ghost predicate Readable(s: Bytes) { 0 !in s && 255 !in s }

  lemma ByteBack(c: int, more: Bytes)
    requires 0 <= c < 256
    ensures TakeByte(ByteOf(c) + more) == Got(c, more)
  {
    assert (ByteOf(c) + more)[1..] == more;
  }

  lemma ShortBack(c: int, more: Bytes)
    requires -0x8000 <= c < 0x8000
    ensures TakeShort(ShortOf(c) + more) == Got(c, more)
  {
    assert (ShortOf(c) + more)[2..] == more;
  }

  lemma LongBack(c: int, more: Bytes)
    requires -0x8000_0000 <= c < 0x8000_0000
    ensures TakeLong(LongOf(c) + more) == Got(c, more)
  {
    assert (LongOf(c) + more)[4..] == more;
    LongValue(c);
  }

  lemma LongValue(c: int)
    requires -0x8000_0000 <= c < 0x8000_0000
    ensures Signed32(c % 256, c / 256 % 256, c / 65536 % 256, c / 16777216 % 256) == c
  {
    var d1, d2, d3 := c / 256, c / 65536, c / 16777216;
    assert d2 == d1 / 256 && d3 == d2 / 256;
    assert c == 256 * d1 + c % 256 && d1 == 256 * d2 + d1 % 256 && d2 == 256 * d3 + d2 % 256;
    assert -128 <= d3 < 128;
  }

  /** A string of at most `room` bytes other than 0 and 255 is read back whole, with its terminator. */
  lemma {:induction false} StringBack(s: Bytes, more: Bytes, room: nat)
    requires Readable(s) && |s| < room
    ensures TakeString(StringOf(s) + more, room) == Got(s, more)
  {
    var b := StringOf(s) + more;
    if s == [] {
      assert b[0] == 0 && b[1..] == more;
    } else {
      StringBack(s[1..], more, room - 1);
      assert b[1..] == StringOf(s[1..]) + more;
      assert b[0] == s[0] && s[0] in s;
      assert s == [s[0]] + s[1..];
    }
  }

  /** Whatever is written of a string, nothing behind the first 0 or 255 of it comes back. */
  lemma {:induction false} StringCut(s: Bytes, more: Bytes, room: nat, k: nat)
    requires k < |s| && k < room && (s[k] == 0 || s[k] == 255) && Readable(s[..k])
    ensures TakeString(StringOf(s) + more, room) == Got(s[..k], s[k + 1..] + [0] + more)
  {
    var b := StringOf(s) + more;
    if k == 0 {
      assert b[1..] == s[1..] + [0] + more;
    } else {
      assert s[1..][..k - 1] == s[..k][1..];
      StringCut(s[1..], more, room - 1, k - 1);
      assert b[1..] == StringOf(s[1..]) + more;
      assert s[0] == s[..k][0] && s[0] in s[..k];
      assert s[..k] == [s[0]] + s[1..][..k - 1];
      assert s[1..][k..] == s[k + 1..];
    }
  }

  // ----- The message buffer -------------------------------------------------------------------------

  class Message {
    var data: Bytes
    var readCount: nat
    var badRead: bool

    constructor ()
      ensures data == [] && readCount == 0 && !badRead
    {
      data, readCount, badRead := [], 0, false;
    }

    ghost predicate Valid()
      reads this
    {
      readCount <= |data|
    }

    /** The bytes not read yet. */
    ghost function Left(): Bytes
      requires Valid()
      reads this
    {
      data[readCount..]
    }

    /** Writing past the end of the buffer is a fatal error. */
    method Write(b: Bytes)
      requires |data| + |b| <= MAX_MSGLEN
      modifies `data
      ensures data == old(data) + b
    {
      data := data + b;
    }

    method BeginReading()
      modifies `readCount, `badRead
      ensures Valid() && !badRead && Left() == data
    {
      readCount, badRead := 0, false;
    }

    method ReadByte() returns (c: int)
      requires Valid() && !badRead
      modifies `readCount, `badRead
      ensures Valid() && badRead == TakeByte(old(Left())).Bad?
      ensures if badRead then c == -1 else TakeByte(old(Left())) == Got(c, Left())
    {
      if readCount >= |data| {
        badRead := true;
        return -1;
      }
      c := data[readCount];
      readCount := readCount + 1;
    }

    method ReadShort() returns (c: int)
      requires Valid() && !badRead
      modifies `readCount, `badRead
      ensures Valid() && badRead == TakeShort(old(Left())).Bad?
      ensures if badRead then c == -1 else TakeShort(old(Left())) == Got(c, Left())
    {
      if readCount + 2 > |data| {
        badRead := true;
        return -1;
      }
      c := Signed16(data[readCount], data[readCount + 1]);
      readCount := readCount + 2;
    }

    method ReadLong() returns (c: int)
      requires Valid() && !badRead
      modifies `readCount, `badRead
      ensures Valid() && badRead == TakeLong(old(Left())).Bad?
      ensures if badRead then c == -1 else TakeLong(old(Left())) == Got(c, Left())
    {
      if readCount + 4 > |data| {
        badRead := true;
        return -1;
      }
      c := Signed32(data[readCount], data[readCount + 1], data[readCount + 2], data[readCount + 3]);
      readCount := readCount + 4;
    }

    method ReadString() returns (s: Bytes)
      requires Valid() && !badRead
      modifies `readCount, `badRead
      ensures Valid() && badRead == TakeString(old(Left()), STRING_ROOM).Bad?
      ensures !badRead ==> TakeString(old(Left()), STRING_ROOM) == Got(s, Left())
    {
      s := [];
      PrependedNothing(s, TakeString(Left(), STRING_ROOM));
      while |s| < STRING_ROOM
        invariant Valid() && !badRead && |s| <= STRING_ROOM
        invariant TakeString(old(Left()), STRING_ROOM) == Prepended(s, TakeString(Left(), STRING_ROOM - |s|))
      {
        ghost var left := Left();
        if readCount >= |data| {
          badRead := true;
          return;
        }
        var c := data[readCount];
        readCount := readCount + 1;
        assert left == [c] + Left();
        if c == 0 || c == 255 {
          PrependedNothing(s, Got([], Left()));
          return;
        }
        PrependedTwice(s, c, TakeString(Left(), STRING_ROOM - |s| - 1));
        s := s + [c];
      }
      PrependedNothing(s, Got([], Left()));
    }
  }

  ghost function Prepended(s: Bytes, r: Read<Bytes>): Read<Bytes> {
    match r
    case Bad => Bad
    case Got(t, rest) => Got(s + t, rest)
  }

  lemma PrependedNothing(s: Bytes, r: Read<Bytes>)
    ensures s == [] ==> Prepended(s, r) == r
    ensures r.Got? && r.value == [] ==> Prepended(s, r) == Got(s, r.rest)
  {
    if r.Got? { assert [] + r.value == r.value && s + [] == s; }
  }

  lemma PrependedTwice(s: Bytes, c: byte, r: Read<Bytes>)
    ensures Prepended(s, Prepended([c], r)) == Prepended(s + [c], r)
  {
    if r.Got? { assert s + ([c] + r.value) == (s + [c]) + r.value; }
  }
}
