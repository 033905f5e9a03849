/**
 The integer encodings of the key import code: ASN.1/BER identifier and length octets, SSH
 mpints, and the bit-counted mpints of ssh.com key files.
 */
module Ber {
  import opened Marshal

  const TWO_31 := 0x8000_0000
  const TWO_64 := 0x1_0000_0000_0000_0000

  // ---------------------------------------------------------------- BER identifiers and lengths

  /** v >> (7 * n) */
  function Shift7(v: nat, n: nat): nat {
    if n == 0 then v else Shift7(v / 128, n - 1)
  }

  /** v >> (8 * n) */
  function Shift8(v: nat, n: nat): nat {
    if n == 0 then v else Shift8(v / 256, n - 1)
  }

  lemma {:induction false} ShiftMore(v: nat, n: nat)
    ensures Shift7(v, n + 1) == Shift7(v, n) / 128
    ensures Shift8(v, n + 1) == Shift8(v, n) / 256
    decreases n
  {
    if n > 0 {
      ShiftMore(v / 128, n - 1);
      ShiftMore(v / 256, n - 1);
    }
  }

  /** Seven-bit groups with the continuation bit set. */
  function HighBytes(v: nat): (r: Bytes)
    decreases v
  {
    if v == 0 then [] else HighBytes(v / 128) + [128 + v % 128]
  }

  function IdBytes(id: nat, flags: Byte): Bytes
    requires flags % 32 == 0
  {
    if id <= 30 then [id + flags] else [0x1F + flags] + HighBytes(id / 128) + [id % 128]
  }

  function BigEndian(v: nat): (r: Bytes)
    decreases v
  {
    if v == 0 then [] else BigEndian(v / 256) + [v % 256]
  }

  lemma BigEndianShort(v: nat)
    requires v < TWO_31
    ensures |BigEndian(v)| <= 4
  {
    assert v / 256 / 256 / 256 / 256 == 0;
    assert |BigEndian(v / 256 / 256 / 256)| <= 1;
    assert |BigEndian(v / 256 / 256)| <= 2;
    assert |BigEndian(v / 256)| <= 3;
  }

  /** To write a length of that many bytes the program shifts an int by eight times their number
      in order to find out that there are no more. That is less than the width of an int, as C
      asks, if and only if the length is below two to the twenty-fourth. */
  lemma LengthShiftIff(length: nat)
    requires 128 <= length < TWO_31
    ensures 8 * |BigEndian(length)| < 32 <==> length < 0x100_0000
  {
    var a, b, c := length / 256, length / 256 / 256, length / 256 / 256 / 256;
    assert BigEndian(0) == [];
    assert |BigEndian(length)| == |BigEndian(a)| + 1;
    assert a > 0 ==> |BigEndian(a)| == |BigEndian(b)| + 1;
    assert b > 0 ==> |BigEndian(b)| == |BigEndian(c)| + 1;
    assert c > 0 ==> |BigEndian(c)| >= 1;
  }

  /** The same for identifiers, seven bits at a time. */
  lemma IdShiftIff(id: nat)
    requires id > 30
    ensures 7 * (|HighBytes(id / 128)| + 1) < 32 <==> id < 0x1000_0000
  {
    var a, b, c, d := id / 128, id / 128 / 128, id / 128 / 128 / 128, id / 128 / 128 / 128 / 128;
    assert HighBytes(0) == [];
    assert a > 0 ==> |HighBytes(a)| == |HighBytes(b)| + 1;
    assert b > 0 ==> |HighBytes(b)| == |HighBytes(c)| + 1;
    assert c > 0 ==> |HighBytes(c)| == |HighBytes(d)| + 1;
    assert d > 0 ==> |HighBytes(d)| >= 1;
  }

  function LengthBytes(length: nat): Bytes
    requires length < TWO_31
  {
    if length < 128 then [length] else
      BigEndianShort(length);
      [128 + |BigEndian(length)|] + BigEndian(length)
  }

  function Header(id: nat, length: nat, flags: Byte): Bytes
    requires flags % 32 == 0 && length < TWO_31
  {
    IdBytes(id, flags) + LengthBytes(length)
  }

  method PutBerIdLen(bs: StrBuf, id: nat, length: nat, flags: Byte)
    requires flags % 32 == 0 && length < TWO_31
    modifies bs
    ensures bs.data == old(bs.data) + Header(id, length, flags)
  {
    ghost var start := bs.data;
    PutIdentifier(bs, id, flags);
    PutLength(bs, length);
    Assoc(start, IdBytes(id, flags), LengthBytes(length));
  }

  method PutIdentifier(bs: StrBuf, id: nat, flags: Byte)
    requires flags % 32 == 0
    modifies bs
    ensures bs.data == old(bs.data) + IdBytes(id, flags)
  {
    ghost var start := bs.data;
    if id <= 30 {
      bs.PutByte(id + flags);
    } else {
      bs.PutByte(0x1F + flags);
      ghost var before := bs.data;
      var n := 1;
      while Shift7(id, n) > 0
        invariant bs.data == before && n >= 1 && Shift7(id, n - 1) > 0
        decreases Shift7(id, n)
      {
        ShiftMore(id, n);
        n := n + 1;
      }
      assert HighBytes(0) == [];
      while n > 0
        invariant n >= 0
        invariant n >= 1 ==> Shift7(id, n - 1) > 0 && bs.data == before + HighBytes(Shift7(id, n))
        invariant n == 0 ==> bs.data == before + (HighBytes(id / 128) + [id % 128])
      {
        n := n - 1;
        ghost var high := HighBytes(Shift7(id, n + 1));
        ShiftMore(id, n);
        if n > 0 { ShiftMore(id, n - 1); }
        var digit: Byte := Shift7(id, n) % 128;
        bs.PutByte((if n > 0 then 0x80 else 0) + digit);
        assert bs.data == before + (high + [(if n > 0 then 0x80 else 0) + digit]);
      }
      Assoc(start, [0x1F + flags], HighBytes(id / 128) + [id % 128]);
      Assoc([0x1F + flags], HighBytes(id / 128), [id % 128]);
    }
  }

  method PutLength(bs: StrBuf, length: nat)
    requires length < TWO_31
    modifies bs
    ensures bs.data == old(bs.data) + LengthBytes(length)
  {
    ghost var start := bs.data;
    if length < 128 {
      bs.PutByte(length);
    } else {
      BigEndianShort(length);
      var n := 1;
      while Shift8(length, n) > 0
        invariant bs.data == start && n >= 1 && Shift8(length, n - 1) > 0
        invariant |BigEndian(length)| == n + |BigEndian(Shift8(length, n))|
        decreases Shift8(length, n)
      {
        ShiftMore(length, n);
        n := n + 1;
      }
      assert BigEndian(0) == [];
      ghost var count := n;
      bs.PutByte(0x80 + n);
      ghost var before := bs.data;
      while n > 0
        invariant n >= 0 && (n >= 1 ==> Shift8(length, n - 1) > 0)
        invariant bs.data == before + BigEndian(Shift8(length, n))
      {
        n := n - 1;
        ghost var high := BigEndian(Shift8(length, n + 1));
        ShiftMore(length, n);
        if n > 0 { ShiftMore(length, n - 1); }
        var digit: Byte := Shift8(length, n) % 256;
        bs.PutByte(digit);
        assert bs.data == before + (high + [digit]);
      }
      Assoc(start, [0x80 + count], BigEndian(length));
    }
  }

  /** The identifier is a C int. */
  datatype Item = Item(id: int, flags: Byte, data: Bytes)

  /** An int of 32 bits, as two's complement has it. */
  function WrappedInt(v: nat): (r: int)
    ensures -TWO_31 <= r < TWO_31 && (r == v <==> v < TWO_31)
  {
    if v % TWO_32 < TWO_31 then v % TWO_32 else v % TWO_32 - TWO_32
  }

  /** The bits of the identifier, of which an int keeps the last 32. */

  function TakeId(s: Source, acc: nat): (nat, Source)
    decreases |s.rest|
  {
    var (b, s') := TakeByte(s);
    var acc' := (acc * 128 + b % 128) % TWO_32;
    if b >= 128 then TakeId(s', acc') else (acc', s')
  }

  function TakeLength(s: Source, n: nat, acc: nat): (nat, Source)
    decreases n
  {
    if n == 0 then (acc, s)
    else
      var (b, s') := TakeByte(s);
      TakeLength(s', n - 1, (acc * 256 + b) % TWO_64)
  }

  function TakeIdentifier(s: Source): (int, Byte, Source) {
    var (lead, s1) := TakeByte(s);
    var (id, s2) := if lead % 32 == 31 then TakeId(s1, 0) else (lead % 32, s1);
    (WrappedInt(id), lead - lead % 32, s2)
  }

  function TakeLengthField(s: Source): (nat, Source) {
    var (lenbyte, s1) := TakeByte(s);
    if lenbyte >= 128 then TakeLength(s1, lenbyte - 128, 0) else (lenbyte as nat, s1)
  }

  function TakeBer(s: Source): (Item, Source) {
    var (id, flags, s1) := TakeIdentifier(s);
    var (length, s2) := TakeLengthField(s1);
    var (data, s3) := TakeData(s2, length);
    (Item(id, flags, data), s3)
  }

  method GetBer(src: BinarySource) returns (item: Item)
    requires src.Valid()
    modifies src
    ensures src.Valid() && (item, src.View()) == TakeBer(old(src.View()))
  {
    var id, flags := GetIdentifier(src);
    var length := GetLength(src);
    var data := src.GetData(length);
    item := Item(id, flags, data);
  }

  method GetIdentifier(src: BinarySource) returns (id: int, flags: Byte)
    requires src.Valid()
    modifies src
    ensures src.Valid() && (id, flags, src.View()) == TakeIdentifier(old(src.View()))
  {
    var lead := src.GetByte();
    flags := lead - lead % 32;
    if lead % 32 == 0x1F {
      ghost var s1 := src.View();
      var idbyte := src.GetByte();
      var bits: nat := idbyte % 128;
      while idbyte >= 0x80
        invariant src.Valid()
        invariant TakeId(s1, 0) == if idbyte >= 0x80 then TakeId(src.View(), bits) else (bits, src.View())
        decreases |src.View().rest|, idbyte
      {
        idbyte := src.GetByte();
        bits := (bits * 128 + idbyte % 128) % TWO_32;
      }
      id := WrappedInt(bits);
    } else {
      id := lead % 32;
    }
  }

  method GetLength(src: BinarySource) returns (length: nat)
    requires src.Valid()
    modifies src
    ensures src.Valid() && (length, src.View()) == TakeLengthField(old(src.View()))
  {
    var lenbyte := src.GetByte();
    if lenbyte >= 0x80 {
      ghost var s1 := src.View();
      var nbytes: nat := lenbyte - 0x80;
      length := 0;
      while nbytes > 0
        invariant src.Valid()
        invariant TakeLength(s1, lenbyte - 0x80, 0) == TakeLength(src.View(), nbytes, length)
      {
        var b := src.GetByte();
        length := (length * 256 + b) % TWO_64;
        nbytes := nbytes - 1;
      }
    } else {
      length := lenbyte;
    }
  }

  lemma GroupBits(v: nat)
    ensures ((v / 128) % TWO_32 * 128 + v % 128) % TWO_32 == v % TWO_32
  {
    var q, d := v / 128, v % 128;
    var x := q % TWO_32 * 128 + d;
    assert q == TWO_32 * (q / TWO_32) + q % TWO_32;
    assert x == TWO_32 * (x / TWO_32) + x % TWO_32;
    assert v == TWO_32 * (128 * (q / TWO_32) + x / TWO_32) + x % TWO_32;
  }

  lemma TakeIdStep(b: Byte, tail: Bytes, acc: nat)
    ensures var acc' := (acc * 128 + b % 128) % TWO_32;
      TakeId(Source([b] + tail, false), acc)
        == if b >= 128 then TakeId(Source(tail, false), acc') else (acc', Source(tail, false))
  {
    ReadOneByte(b, tail);
  }

  lemma TakeOneGroup(b: Byte, v: nat, tail: Bytes)
    requires b % 128 == v % 128
    ensures TakeId(Source([b] + tail, false), (v / 128) % TWO_32)
      == if b >= 128 then TakeId(Source(tail, false), v % TWO_32) else (v % TWO_32, Source(tail, false))
  {
    hide TakeId;
    GroupBits(v);
    TakeIdStep(b, tail, (v / 128) % TWO_32);
  }

  lemma {:induction false} ReadHighBytes(v: nat, tail: Bytes)
    ensures TakeId(Source(HighBytes(v) + tail, false), 0) == TakeId(Source(tail, false), v % TWO_32)
    decreases v
  {
    hide TakeId;
    if v == 0 {
      assert HighBytes(v) + tail == tail;
    } else {
      var b: Byte := 128 + v % 128;
      Assoc(HighBytes(v / 128), [b], tail);
      ReadHighBytes(v / 128, [b] + tail);
      TakeOneGroup(b, v, tail);
    }
  }

  lemma ReadId(id: nat, tail: Bytes)
    ensures TakeId(Source(HighBytes(id / 128) + [id % 128] + tail, false), 0) == (id % TWO_32, Source(tail, false))
  {
    hide TakeId, HighBytes;
    var b: Byte := id % 128;
    Assoc(HighBytes(id / 128), [b], tail);
    ReadHighBytes(id / 128, [b] + tail);
    TakeOneGroup(b, id, tail);
  }

  lemma TakeOneMore(b: Byte, tail: Bytes, k: nat, v: nat)
    requires v < TWO_31 && b == v % 256
    ensures TakeLength(Source([b] + tail, false), k + 1, v / 256) == TakeLength(Source(tail, false), k, v)
  {
    ReadOneByte(b, tail);
    assert v / 256 * 256 + b == v;
  }

  lemma {:induction false} ReadBigEndian(v: nat, k: nat, tail: Bytes)
    requires v < TWO_31
    ensures TakeLength(Source(BigEndian(v) + tail, false), |BigEndian(v)| + k, 0) ==
        TakeLength(Source(tail, false), k, v)
    decreases v
  {
    hide TakeLength;
    if v == 0 {
      assert BigEndian(v) + tail == tail;
    } else {
      var b: Byte := v % 256;
      Assoc(BigEndian(v / 256), [b], tail);
      ReadBigEndian(v / 256, k + 1, [b] + tail);
      TakeOneMore(b, tail, k, v);
    }
  }

  lemma ReadLength(length: nat, tail: Bytes)
    requires length < TWO_31
    ensures TakeLengthField(Source(LengthBytes(length) + tail, false)) == (length, Source(tail, false))
  {
    var r := LengthBytes(length) + tail;
    if length < 128 {
      assert r[1..] == tail;
    } else {
      BigEndianShort(length);
      assert r[1..] == BigEndian(length) + tail;
      ReadBigEndian(length, 0, tail);
    }
  }

  lemma ReadIdentifier(id: nat, flags: Byte, tail: Bytes)
    requires flags % 32 == 0
    ensures TakeIdentifier(Source(IdBytes(id, flags) + tail, false)) == (WrappedInt(id), flags, Source(tail, false))
  {
    hide TakeId, HighBytes;
    var r := IdBytes(id, flags) + tail;
    if id <= 30 {
      assert r[1..] == tail;
    } else {
      assert r[1..] == HighBytes(id / 128) + [id % 128] + tail;
      ReadId(id, tail);
    }
  }

  /** Reading a BER item gives back the flags and the contents written and, if and only if an int
      can hold it, the identifier; of a larger one the last 32 bits are left. */
  lemma ReadBer(id: nat, flags: Byte, content: Bytes, tail: Bytes)
    requires flags % 32 == 0 && |content| < TWO_31
    ensures TakeBer(Source(Header(id, |content|, flags) + content + tail, false)) ==
        (Item(WrappedInt(id), flags, content), Source(tail, false))
    ensures WrappedInt(id) == id <==> id < TWO_31
  {
    hide IdBytes, TakeIdentifier;
    var rest := content + tail;
    var body := LengthBytes(|content|) + rest;
    assert Header(id, |content|, flags) + content + tail == IdBytes(id, flags) + body;
    ReadIdentifier(id, flags, body);
    ReadLength(|content|, rest);
    assert rest[..|content|] == content && rest[|content|..] == tail;
  }

  /** Five groups for 2^32 + 16 are read as a sequence. */
  lemma SequenceFromLarge(content: Bytes, tail: Bytes)
    requires |content| < TWO_31
    ensures Header(TWO_32 + 16, |content|, 0x20) == [0x3F, 0x90, 0x80, 0x80, 0x80, 0x10] + LengthBytes(|content|)
    ensures TakeBer(Source(Header(TWO_32 + 16, |content|, 0x20) + content + tail, false)).0.id == 16
  {
    ReadBer(TWO_32 + 16, 0x20, content, tail);
    hide *;
    LargeBytes();
    HeaderIs(TWO_32 + 16, |content|, 0x20);
    assert [0x3F] + [0x90, 0x80, 0x80, 0x80] + [0x10] == [0x3F, 0x90, 0x80, 0x80, 0x80, 0x10];
  }

  lemma HeaderIs(id: nat, length: nat, flags: Byte)
    requires id > 30 && length < TWO_31 && flags % 32 == 0
    ensures Header(id, length, flags) == [0x1F + flags] + HighBytes(id / 128) + [id % 128] + LengthBytes(length)
  {
  }

  lemma LargeBytes()
    ensures HighBytes((TWO_32 + 16) / 128) == [0x90, 0x80, 0x80, 0x80] && (TWO_32 + 16) % 128 == 16
  {
    assert HighBytes(0) == [];
    assert HighBytes(16) == [0x90];
    assert HighBytes(0x800) == [0x90, 0x80];
    assert HighBytes(0x4_0000) == [0x90, 0x80, 0x80];
    assert HighBytes(0x200_0000) == [0x90, 0x80, 0x80, 0x80];
  }

  // ---------------------------------------------------------------- SSH mpints

  /** The number a byte string stands for, most significant byte first. */
  function Value(s: Bytes): (v: nat) {
    if s == [] then 0 else Value(s[..|s| - 1]) * 256 + s[|s| - 1]
  }

  function StripZeros(s: Bytes): (r: Bytes)
    ensures r == [] || r[0] != 0
  {
    if s != [] && s[0] == 0 then StripZeros(s[1..]) else s
  }

  /** The contents of the mpint the writer makes of any byte string. */
  function MpintOf(s: Bytes): Bytes {
    var t := StripZeros(s);
    if t != [] && t[0] >= 128 then [0] + t else t
  }

  /** Section 5 of RFC 4251: no superfluous leading byte, and not negative. */
  predicate IsMpint(s: Bytes) {
    s == [] || 1 <= s[0] < 128 || (s[0] == 0 && |s| >= 2 && s[1] >= 128)
  }

  method PutMpSsh2FromString(bs: StrBuf, str: Bytes)
    modifies bs
    ensures bs.data == old(bs.data) + String(MpintOf(str))
  {
    var bytes: Bytes := str;
    while |bytes| > 0 && bytes[0] == 0
      invariant |bytes| <= |str| && StripZeros(bytes) == StripZeros(str)
    {
      bytes := bytes[1..];
    }
    assert bytes == StripZeros(str);
    hide StripZeros;
    ghost var start := bs.data;
    if |bytes| > 0 && bytes[0] >= 0x80 {
      bs.PutUint32(|bytes| + 1);
      bs.PutByte(0);
    } else {
      bs.PutUint32(|bytes|);
    }
    bs.PutData(bytes);
    assert bs.data == start + String(MpintOf(str));
  }

  lemma {:induction false} ValueLeadingZero(s: Bytes)
    ensures Value([0] + s) == Value(s)
  {
    if s != [] {
      assert ([0] + s)[..|s|] == [0] + s[..|s| - 1];
      ValueLeadingZero(s[..|s| - 1]);
    }
  }

  lemma {:induction false} StripKeepsValue(s: Bytes)
    ensures Value(StripZeros(s)) == Value(s)
  {
    if s != [] && s[0] == 0 {
      StripKeepsValue(s[1..]);
      ValueLeadingZero(s[1..]);
      assert s == [0] + s[1..];
    }
  }

  /** What is written is an mpint of the same value; an mpint is written unchanged. */
  lemma MpintOfCanonical(s: Bytes)
    ensures IsMpint(MpintOf(s)) && Value(MpintOf(s)) == Value(s)
    ensures IsMpint(s) <==> MpintOf(s) == s
  {
    StripKeepsValue(s);
    ValueLeadingZero(StripZeros(s));
    if IsMpint(s) && s != [] && s[0] == 0 {
      assert s == [0] + s[1..];
    }
  }

  lemma {:induction false} ValuePositive(s: Bytes)
    requires s != [] && s[0] != 0
    ensures Value(s) > 0
  {
    if |s| > 1 { ValuePositive(s[..|s| - 1]); }
  }

  lemma {:induction false} NoLeadingZeroUnique(s: Bytes, t: Bytes)
    requires (s == [] || s[0] != 0) && (t == [] || t[0] != 0) && Value(s) == Value(t)
    ensures s == t
    decreases |s|
  {
    if s != [] { ValuePositive(s); }
    if t != [] { ValuePositive(t); }
    if s != [] && t != [] {
      var s', t' := s[..|s| - 1], t[..|t| - 1];
      assert Value(s) / 256 == Value(s') && Value(t) / 256 == Value(t');
      NoLeadingZeroUnique(s', t');
      assert s == s' + [s[|s| - 1]] && t == t' + [t[|t| - 1]];
    }
  }

  /** A number has one mpint. */
  lemma MpintUnique(s: Bytes, t: Bytes)
    requires IsMpint(s) && IsMpint(t) && Value(s) == Value(t)
    ensures s == t
  {
    StripKeepsValue(s);
    StripKeepsValue(t);
    NoLeadingZeroUnique(StripZeros(s), StripZeros(t));
    MpintOfCanonical(s);
    MpintOfCanonical(t);
  }

  // ---------------------------------------------------------------- ssh.com mpints

  function BitLength(b: Byte): (n: nat) {
    if b >= 128 then 8 else if b >= 64 then 7 else if b >= 32 then 6 else if b >= 16 then 5
    else if b >= 8 then 4 else if b >= 4 then 3 else if b >= 2 then 2 else if b >= 1 then 1 else 0
  }

  /** The bytes the ssh.com writer keeps: leading zero bytes go, but not the last byte. */
  function SshcomRest(s: Bytes): (r: Bytes)
    ensures |r| <= |s| && (|r| >= 2 ==> r[0] != 0) && (s != [] ==> r != [])
  {
    if |s| >= 2 && s[0] == 0 then SshcomRest(s[1..]) else s
  }

  function SshcomBits(r: Bytes): nat {
    if r == [] then 0 else
      var n := 8 * (|r| - 1) + BitLength(r[0]);
      if n == 0 then 1 else n
  }

  function SshcomMpint(s: Bytes): Bytes {
    Uint32(SshcomBits(SshcomRest(s))) + SshcomRest(s)
  }

  const POWERS: seq<int> := [1, 2, 4, 8, 16, 32, 64, 128, 256]

  method PutMpSshcomFromString(bs: StrBuf, str: Bytes)
    requires |str| * 8 < TWO_31
    modifies bs
    ensures bs.data == old(bs.data) + SshcomMpint(str)
  {
    var bytes: Bytes := str;
    var bits := |str| * 8 - 1;
    while bits > 0
      invariant bs.data == old(bs.data) && SshcomRest(bytes) == SshcomRest(str)
      invariant bits >= 0 ==> |bytes| == bits / 8 + 1 && bytes[0] < POWERS[bits % 8 + 1]
      invariant bits < 0 ==> bytes == str == [] && bits == -1
    {
      if bytes[0] / POWERS[bits % 8] % 2 == 1 {
        break;
      }
      BitClear(bytes[0], bits % 8);
      var last := bits % 8 == 0;
      bits := bits - 1;
      if last {
        bytes := bytes[1..];
      }
    }
    if bits >= 0 { CountedBits(bytes, bits); }
    ghost var start := bs.data;
    bs.PutUint32(bits + 1);
    bs.PutData(bytes);
    Assoc(start, Uint32(bits + 1), bytes);
  }

  lemma BitClear(b: Byte, j: nat)
    requires j < 8 && b < POWERS[j + 1] && b / POWERS[j] % 2 == 0
    ensures b < POWERS[j]
  {
    if j == 0 {} else if j == 1 {} else if j == 2 {} else if j == 3 {} else if j == 4 {} else if j ==
        5 {} else if j == 6 {} else {}
  }

  lemma TopBit(b: Byte, j: nat)
    requires j < 8 && POWERS[j] <= b < POWERS[j + 1]
    ensures BitLength(b) == j + 1
  {
    if j == 0 {} else if j == 1 {} else if j == 2 {} else if j == 3 {} else if j == 4 {} else if j ==
        5 {} else if j == 6 {} else {}
  }

  lemma CountedBits(bytes: Bytes, bits: nat)
    requires |bytes| == bits / 8 + 1 && bytes[0] < POWERS[bits % 8 + 1]
    requires bits == 0 || bytes[0] / POWERS[bits % 8] % 2 == 1
    ensures SshcomRest(bytes) == bytes && SshcomBits(bytes) == bits + 1
  {
    if bits > 0 {
      BitSet(bytes[0], bits % 8);
      TopBit(bytes[0], bits % 8);
    }
  }

  lemma BitSet(b: Byte, j: nat)
    requires j < 8 && b / POWERS[j] % 2 == 1
    ensures POWERS[j] <= b
  {
    if j == 0 {} else if j == 1 {} else if j == 2 {} else if j == 3 {} else if j == 4 {} else if j ==
        5 {} else if j == 6 {} else {}
  }

  function TakeMpSshcom(s: Source): (Bytes, Source) {
    var (bits, s') := TakeUint32(s);
    TakeData(s', (bits + 7) % TWO_32 / 8)
  }

  method GetMpSshcomAsString(src: BinarySource) returns (r: Bytes)
    requires src.Valid()
    modifies src
    ensures src.Valid() && (r, src.View()) == TakeMpSshcom(old(src.View()))
  {
    var bits := src.GetUint32();
    r := src.GetData((bits + 7) % TWO_32 / 8);
  }

  lemma BytesFromBits(r: Bytes)
    requires |r| >= 2 ==> r[0] != 0
    ensures (SshcomBits(r) + 7) / 8 == |r| && SshcomBits(r) <= 8 * |r|
  {
  }

  lemma FromCount(s: Source, bits: int, s': Source, n: nat)
    requires TakeUint32(s) == (bits, s') && bits < TWO_31 && (bits + 7) / 8 == n
    ensures TakeMpSshcom(s) == TakeData(s', n)
  {
  }

  lemma ReadMpSshcom(s: Bytes, tail: Bytes)
    requires |s| * 8 < TWO_31
    ensures TakeMpSshcom(Source(SshcomMpint(s) + tail, false)) == (SshcomRest(s), Source(tail, false))
  {
    var r := SshcomRest(s);
    var bits := SshcomBits(r);
    assert bits < TWO_31 && (bits + 7) / 8 == |r| by { BytesFromBits(r); }
    assert SshcomMpint(s) + tail == Uint32(bits) + (r + tail) by { Assoc(Uint32(bits), r, tail); }
    ReadCount(bits, r + tail);
    FromCount(Source(SshcomMpint(s) + tail, false), bits, Source(r + tail, false), |r|);
    ReadContent(r, tail);
  }

  lemma {:induction false} SshcomRestStrips(s: Bytes)
    ensures StripZeros(SshcomRest(s)) == StripZeros(s)
  {
    if |s| >= 2 && s[0] == 0 { SshcomRestStrips(s[1..]); }
  }

  /** The number of bits of a number. */
  function NumBits(v: nat): nat {
    if v == 0 then 0 else 1 + NumBits(v / 2)
  }

  lemma NumBitsByte(q: nat, r: Byte)
    ensures q == 0 ==> NumBits(r) == BitLength(r)
    ensures q > 0 ==> NumBits(256 * q + r) == 8 + NumBits(q)
  {
    if q == 0 {
      var r1 := r / 2; var r2 := r1 / 2; var r3 := r2 / 2; var r4 := r3 / 2;
      var r5 := r4 / 2; var r6 := r5 / 2; var r7 := r6 / 2;
      assert r7 / 2 == 0 && NumBits(0) == 0;
      assert NumBits(r7) == (if r7 == 0 then 0 else 1);
      assert NumBits(r6) == (if r6 == 0 then 0 else 1 + NumBits(r7));
      assert NumBits(r5) == (if r5 == 0 then 0 else 1 + NumBits(r6));
      assert NumBits(r4) == (if r4 == 0 then 0 else 1 + NumBits(r5));
      assert NumBits(r3) == (if r3 == 0 then 0 else 1 + NumBits(r4));
      assert NumBits(r2) == (if r2 == 0 then 0 else 1 + NumBits(r3));
      assert NumBits(r1) == (if r1 == 0 then 0 else 1 + NumBits(r2));
    } else {
      var v := 256 * q + r;
      assert v / 2 / 2 / 2 / 2 / 2 / 2 / 2 / 2 == q;
      assert NumBits(v / 2 / 2 / 2 / 2 / 2 / 2 / 2) == 1 + NumBits(q);
      assert NumBits(v / 2 / 2 / 2 / 2 / 2) == 3 + NumBits(q);
      assert NumBits(v / 2 / 2 / 2) == 5 + NumBits(q);
      assert NumBits(v / 2) == 7 + NumBits(q);
    }
  }

  /** The bit count written is the number of bits of the value; a zero that has any bytes
      counts as one bit. */
  lemma {:induction false} SshcomBitsIsLength(r: Bytes)
    requires |r| >= 2 ==> r[0] != 0
    ensures SshcomBits(r) == if r == [] then 0 else if Value(r) == 0 then 1 else NumBits(Value(r))
  {
    if |r| == 1 {
      assert Value(r[..0]) == 0;
      NumBitsByte(0, r[0]);
    } else if |r| > 1 {
      var q := r[..|r| - 1];
      ValuePositive(q);
      SshcomBitsIsLength(q);
      NumBitsByte(Value(q), r[|r| - 1]);
    }
  }

  /** The bit-counted form keeps the number; the next writer makes it the same mpint. */
  lemma SshcomKeepsMpint(s: Bytes)
    ensures Value(SshcomRest(s)) == Value(s)
    ensures Value(s) > 0 ==> SshcomBits(SshcomRest(s)) == NumBits(Value(s))
    ensures MpintOf(SshcomRest(s)) == MpintOf(s)
  {
    SshcomRestStrips(s);
    StripKeepsValue(s);
    StripKeepsValue(SshcomRest(s));
    SshcomBitsIsLength(SshcomRest(s));
  }

  // ---------------------------------------------------------------- the form of a header

  /** Digits to the base 128, the highest first. */
  function Groups(s: Bytes): nat {
    if s == [] then 0 else Groups(s[..|s| - 1]) * 128 + s[|s| - 1] % 128
  }

  lemma {:induction false} BigEndianForm(v: nat)
    ensures Value(BigEndian(v)) == v && (v > 0 ==> BigEndian(v) != [] && BigEndian(v)[0] != 0)
    decreases v
  {
    if v > 0 {
      BigEndianForm(v / 256);
      assert BigEndian(v)[..|BigEndian(v)| - 1] == BigEndian(v / 256);
    }
  }

  lemma {:induction false} HighBytesForm(v: nat)
    ensures Groups(HighBytes(v)) == v && (v > 0 ==> HighBytes(v) != [] && HighBytes(v)[0] != 128)
    decreases v
  {
    if v > 0 {
      HighBytesForm(v / 128);
      assert HighBytes(v)[..|HighBytes(v)| - 1] == HighBytes(v / 128);
    }
  }

  lemma {:induction false} HighBytesHigh(v: nat, k: nat)
    requires k < |HighBytes(v)|
    ensures HighBytes(v)[k] >= 128
    decreases v
  {
    if k < |HighBytes(v / 128)| { HighBytesHigh(v / 128, k); }
  }

  /** Section 8.1.2 of X.690: a low number stands in the first octet with the flags; for a higher one
      that holds 31, and its groups of seven bits follow, the fewest possible, all but the last with the
      highest bit set. */
  lemma IdentifierForm(id: nat, flags: Byte)
    requires flags % 32 == 0
    ensures id <= 30 ==> IdBytes(id, flags) == [id + flags]
    ensures id > 30 ==> var r := IdBytes(id, flags);
      && |r| >= 2 && r[0] == 31 + flags && Groups(r[1..]) == id && r[1] != 128 && r[|r| - 1] < 128
      && forall k :: 1 <= k < |r| - 1 ==> r[k] >= 128
  {
    if id > 30 {
      var r, high := IdBytes(id, flags), HighBytes(id / 128);
      HighBytesForm(id / 128);
      assert r == [31 + flags] + (high + [id % 128]);
      hide HighBytes, IdBytes;
      assert r[1..] == high + [id % 128] && r[1..][..|high|] == high;
      assert id >= 128 ==> high != [];
      forall k | 1 <= k < |r| - 1
        ensures r[k] >= 128
      {
        HighBytesHigh(id / 128, k - 1);
      }
    }
  }

  /** Section 8.1.3 of X.690: a short length is one octet; for a longer one the first octet counts those
      that follow, and these are the number, the highest octet first and not zero. */
  lemma LengthForm(length: nat)
    requires length < TWO_31
    ensures length < 128 ==> LengthBytes(length) == [length]
    ensures length >= 128 ==> var r := LengthBytes(length);
      |r| >= 2 && r[0] as int == 128 + |r| - 1 && Value(r[1..]) == length && r[1] != 0
  {
    if length >= 128 {
      BigEndianForm(length);
      assert LengthBytes(length)[1..] == BigEndian(length);
    }
  }
}
