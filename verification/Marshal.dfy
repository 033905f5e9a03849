/**
 Binary marshalling: appending primitive values to a string buffer, and reading them back
 from a source whose error flag is sticky.
 */
module Marshal {

  type Byte = b: int | 0 <= b < 256

  type Bytes = seq<Byte>

  const TWO_32 := 0x1_0000_0000

  // ---------------------------------------------------------------- what the writers append

  /** Four bytes, most significant first; a wider or negative value is cut to 32 bits. */
  function Uint32(v: int): (r: Bytes)
    ensures |r| == 4
  {
    var u := v % TWO_32;
    [u / 0x100_0000, u / 0x1_0000 % 256, u / 256 % 256, u % 256]
  }

  function Bool(b: bool): Bytes {
    [if b then 1 else 0]
  }

  function Asciz(s: Bytes): Bytes {
    s + [0]
  }

  function String(s: Bytes): Bytes {
    Uint32(|s|) + s
  }

  class StrBuf {
    var data: Bytes

    constructor ()
      ensures data == []
    {
      data := [];
    }

    method PutData(s: Bytes)
      modifies this
      ensures data == old(data) + s
    {
      data := data + s;
    }

    method PutByte(b: Byte)
      modifies this
      ensures data == old(data) + [b]
    {
      data := data + [b];
    }

    method PutPadding(n: nat, b: Byte)
      modifies this
      ensures data == old(data) + seq(n, i => b)
    {
      var left := n;
      while left > 0
        invariant 0 <= left <= n && data == old(data) + seq(n - left, i => b)
      {
        var now := if left < 16 then left else 16;
        ghost var before := data;
        data := data + seq(now, i => b);
        assert before + seq(now, i => b) == old(data) + seq(n - left + now, i => b);
        left := left - now;
      }
      assert data == old(data) + seq(n, i => b);
    }

    method PutUint32(v: int)
      modifies this
      ensures data == old(data) + Uint32(v)
    {
      data := data + Uint32(v);
    }

    method PutBool(b: bool)
      modifies this
      ensures data == old(data) + Bool(b)
    {
      data := data + Bool(b);
    }

    method PutString(s: Bytes)
      requires |s| < TWO_32
      modifies this
      ensures data == old(data) + String(s)
    {
      PutUint32(|s|);
      data := data + s;
    }

    method PutAsciz(s: Bytes)
      modifies this
      ensures data == old(data) + Asciz(s)
    {
      data := data + Asciz(s);
    }

    /** Overwriting four bytes in the middle of the buffer. */
    method PatchUint32(at: nat, v: int)
      requires at + 4 <= |data|
      modifies this
      ensures data == old(data)[..at] + Uint32(v) + old(data)[at + 4..]
    {
      data := data[..at] + Uint32(v) + data[at + 4..];
    }
  }

  // ---------------------------------------------------------------- what the readers take

  /** The unread rest of a source and its error flag. */
  datatype Source = Source(rest: Bytes, err: bool)

  function Available(s: Source, n: nat): bool {
    !s.err && n <= |s.rest|
  }

  function TakeData(s: Source, n: nat): (Bytes, Source) {
    if Available(s, n) then (s.rest[..n], s.(rest := s.rest[n..])) else ([], s.(err := true))
  }

  function TakeByte(s: Source): (Byte, Source) {
    if Available(s, 1) then (s.rest[0], s.(rest := s.rest[1..])) else (0, s.(err := true))
  }

  function TakeBool(s: Source): (bool, Source) {
    var (b, s') := TakeByte(s);
    (b != 0, s')
  }

  function Value32(r: Bytes): (v: int)
    requires |r| == 4
    ensures 0 <= v < TWO_32
  {
    ((r[0] as int * 256 + r[1]) * 256 + r[2]) * 256 + r[3]
  }

  function TakeUint32(s: Source): (r: (int, Source))
    ensures 0 <= r.0 < TWO_32
  {
    if Available(s, 4) then (Value32(s.rest[..4]), s.(rest := s.rest[4..])) else (0, s.(err := true))
  }

  function TakeString(s: Source): (Bytes, Source) {
    var (n, s') := TakeUint32(s);
    if s'.err then ([], s') else TakeData(s', n)
  }

  /** The position of the first zero byte, or the length when there is none. */
  function FindNul(r: Bytes): (n: nat)
    ensures n <= |r|
    ensures n < |r| ==> r[n] == 0
    ensures 0 !in r[..n]
  {
    if r == [] || r[0] == 0 then 0 else
      assert forall k :: 0 <= k < FindNul(r[1..]) ==> r[1..][..FindNul(r[1..])][k] == r[k + 1];
      1 + FindNul(r[1..])
  }

  function TakeAsciz(s: Source): (Bytes, Source) {
    if s.err then ([], s)
    else
      var n := FindNul(s.rest);
      if n == |s.rest| then ([], s.(err := true)) else (s.rest[..n], s.(rest := s.rest[n + 1..]))
  }

  lemma SliceOfRest(data: Bytes, pos: nat, n: nat)
    requires pos + n <= |data|
    ensures data[pos..][..n] == data[pos..pos + n] && data[pos..][n..] == data[pos + n..]
  {
  }

  class BinarySource {
    var data: Bytes
    var pos: nat
    var err: bool

    ghost predicate Valid()
      reads this
    {
      pos <= |data|
    }

    function View(): Source
      requires Valid()
      reads this
    {
      Source(data[pos..], err)
    }

    constructor (data: Bytes)
      ensures Valid() && View() == Source(data, false)
    {
      this.data, pos, err := data, 0, false;
    }

    method Avail(wanted: nat) returns (ok: bool)
      requires Valid()
      modifies this`err
      ensures Valid() && data == old(data) && pos == old(pos)
      ensures ok == Available(old(View()), wanted)
      ensures err == (old(err) || !ok)
    {
      if err {
        return false;
      }
      if wanted <= |data| - pos {
        return true;
      }
      err := true;
      return false;
    }

    method GetData(wanted: nat) returns (r: Bytes)
      requires Valid()
      modifies this
      ensures Valid() && (r, View()) == TakeData(old(View()), wanted)
    {
      var ok := Avail(wanted);
      if !ok {
        return [];
      }
      SliceOfRest(data, pos, wanted);
      r := data[pos..pos + wanted];
      pos := pos + wanted;
    }

    method GetByte() returns (b: Byte)
      requires Valid()
      modifies this
      ensures Valid() && (b, View()) == TakeByte(old(View()))
    {
      var ok := Avail(1);
      if !ok {
        return 0;
      }
      b := data[pos];
      pos := pos + 1;
    }

    method GetBool() returns (b: bool)
      requires Valid()
      modifies this
      ensures Valid() && (b, View()) == TakeBool(old(View()))
    {
      var ok := Avail(1);
      if !ok {
        return false;
      }
      b := data[pos] != 0;
      pos := pos + 1;
    }

    method GetUint32() returns (v: int)
      requires Valid()
      modifies this
      ensures Valid() && (v, View()) == TakeUint32(old(View()))
    {
      var ok := Avail(4);
      if !ok {
        return 0;
      }
      SliceOfRest(data, pos, 4);
      v := Value32(data[pos..pos + 4]);
      pos := pos + 4;
    }

    method GetString() returns (r: Bytes)
      requires Valid()
      modifies this
      ensures Valid() && (r, View()) == TakeString(old(View()))
    {
      var ok := Avail(4);
      if !ok {
        return [];
      }
      SliceOfRest(data, pos, 4);
      var n := Value32(data[pos..pos + 4]);
      pos := pos + 4;
      ok := Avail(n);
      if !ok {
        return [];
      }
      SliceOfRest(data, pos, n);
      r := data[pos..pos + n];
      pos := pos + n;
    }

    method GetAsciz() returns (r: Bytes)
      requires Valid()
      modifies this
      ensures Valid() && (r, View()) == TakeAsciz(old(View()))
    {
      if err {
        return [];
      }
      var n := FindNul(data[pos..]);
      if n == |data| - pos {
        err := true;
        return [];
      }
      SliceOfRest(data, pos, n);
      SliceOfRest(data, pos, n + 1);
      r := data[pos..pos + n];
      pos := pos + n + 1;
    }
  }

  // ---------------------------------------------------------------- reading back what was written

  lemma Assoc(a: Bytes, b: Bytes, c: Bytes)
    ensures (a + b) + c == a + (b + c)
  {
  }

  lemma Uint32Value(v: int)
    ensures Value32(Uint32(v)) == v % TWO_32
  {
    var u := v % TWO_32;
    assert u / 0x1_0000 == u / 256 / 256 && u / 0x100_0000 == u / 0x1_0000 / 256;
  }

  lemma LastByte(q: nat, r: Byte)
    ensures (0x100 * q + r) / 0x100 == q && (0x100 * q + r) % 0x100 == r
  {
  }

  /** The four bytes of a number are its digits to the base 256, the highest first. */
  lemma Uint32Digits(a: Byte, b: Byte, c: Byte, d: Byte)
    ensures var v := 0x100_0000 * a + 0x1_0000 * b + 0x100 * c + d;
      Uint32(v) == [a, b, c, d] && Value32([a, b, c, d]) == v
  {
    var u := 0x100 * (0x100 * a as int + b) + c;
    var v := 0x100 * u + d;
    LastByte(u, d);
    LastByte(0x100 * a as int + b, c);
    LastByte(a, b);
    assert v % TWO_32 == v && v / 0x1_0000 == v / 256 / 256 && v / 0x100_0000 == v / 256 / 256 / 256;
  }

  lemma ReadUint32(v: int, tail: Bytes)
    ensures TakeUint32(Source(Uint32(v) + tail, false)) == (v % TWO_32, Source(tail, false))
  {
    var r := Uint32(v) + tail;
    assert r[..4] == Uint32(v) && r[4..] == tail;
    Uint32Value(v);
  }

  lemma ReadCount(v: int, tail: Bytes)
    requires 0 <= v < TWO_32
    ensures TakeUint32(Source(Uint32(v) + tail, false)) == (v, Source(tail, false))
  {
    ReadUint32(v, tail);
  }

  lemma ReadOneByte(b: Byte, tail: Bytes)
    ensures TakeByte(Source([b] + tail, false)) == (b, Source(tail, false))
  {
    assert ([b] + tail)[1..] == tail;
  }

  lemma ReadContent(s: Bytes, tail: Bytes)
    ensures TakeData(Source(s + tail, false), |s|) == (s, Source(tail, false))
  {
    assert (s + tail)[..|s|] == s && (s + tail)[|s|..] == tail;
  }

  lemma ReadString(s: Bytes, tail: Bytes)
    requires |s| < TWO_32
    ensures TakeString(Source(String(s) + tail, false)) == (s, Source(tail, false))
  {
    assert String(s) + tail == Uint32(|s|) + (s + tail);
    ReadUint32(|s|, s + tail);
    assert (s + tail)[..|s|] == s && (s + tail)[|s|..] == tail;
  }

  lemma {:induction false} FindNulAppended(s: Bytes, tail: Bytes)
    requires 0 !in s
    ensures FindNul(s + [0] + tail) == |s|
  {
    if s != [] {
      assert s[0] in s && forall b :: b in s[1..] ==> b in s;
      FindNulAppended(s[1..], tail);
      assert (s + [0] + tail)[1..] == s[1..] + [0] + tail;
    }
  }

  lemma ReadAsciz(s: Bytes, tail: Bytes)
    requires 0 !in s
    ensures TakeAsciz(Source(Asciz(s) + tail, false)) == (s, Source(tail, false))
  {
    FindNulAppended(s, tail);
    var r := s + [0] + tail;
    assert r[..|s|] == s && r[|s| + 1..] == tail;
  }
}
