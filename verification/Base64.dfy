/**
 Base64 text with line feeds: an encoder whose output buffer is sized in advance, and a decoder
 that skips everything outside the alphabet.
 */
module Base64 {
  import opened Marshal

  datatype Option<T> = None | Some(value: T)

  const TWO_64 := 0x1_0000_0000_0000_0000
  const PAD: Byte := 61
  const NEWLINE: Byte := 10
  const SKIP: Byte := 0x80

  // ---------------------------------------------------------------- the alphabet

  /** Upper case, lower case, digits, plus and slash, in this order. */
  function Symbol(v: nat): (c: Byte)
    requires v < 64
  {
    if v < 26 then 65 + v else if v < 52 then 71 + v else if v < 62 then v - 4 else if v == 62 then 43 else 47
  }

  /** The number a symbol stands for, zero for the padding, and SKIP for all else. */
  function Number(c: Byte): (v: Byte)
    ensures v < 64 || v == SKIP
  {
    if 65 <= c <= 90 then c - 65
    else if 97 <= c <= 122 then c - 71
    else if 48 <= c <= 57 then c + 4
    else if c == 43 then 62
    else if c == 47 then 63
    else if c == PAD then 0
    else SKIP
  }

  function Upper(v: nat): char
    requires v < 26
  {
    "ABCDEFGHIJKLMNOPQRSTUVWXYZ"[v]
  }

  function Lower(v: nat): char
    requires v < 26
  {
    "abcdefghijklmnopqrstuvwxyz"[v]
  }

  function Other(v: nat): char
    requires v < 12
  {
    "0123456789+/"[v]
  }

  lemma Letters(v: nat)
    requires v < 26
    ensures Upper(v) as int == 65 + v && Lower(v) as int == 97 + v
  {
  }

  lemma OtherSymbols(v: nat)
    requires v < 12
    ensures Other(v) as int == if v < 10 then 48 + v else if v == 10 then 43 else 47
  {
  }

  /** The alphabet of section 4 of RFC 4648. */
  function AlphabetAt(v: nat): char
    requires v < 64
  {
    if v < 26 then Upper(v) else if v < 52 then Lower(v - 26) else Other(v - 52)
  }

  /** The symbol of a number, and the number of a symbol. */
  lemma SymbolIs(v: nat)
    requires v < 64
    ensures Symbol(v) == AlphabetAt(v) as int && Number(Symbol(v)) == v
  {
    hide Upper, Lower, Other;
    if v < 52 { Letters(v % 26); } else { OtherSymbols(v - 52); }
  }

  /** Besides the alphabet only the equals sign is not skipped. */
  lemma SkippedIff(c: Byte)
    ensures Number(c) == SKIP <==> c != 61 && forall v: nat :: v < 64 ==> AlphabetAt(v) as int != c
  {
    hide AlphabetAt;
    forall v: nat | v < 64
      ensures AlphabetAt(v) as int == Symbol(v) && Number(Symbol(v)) == v
    {
      SymbolIs(v);
    }
    if Number(c) != SKIP && c != 61 {
      assert AlphabetAt(Number(c)) as int == c;
    }
  }

  lemma NumberOfSymbol(v: nat)
    requires v < 64
    ensures Number(Symbol(v)) == v && Symbol(v) != PAD && Symbol(v) != NEWLINE
  {
  }

  // ---------------------------------------------------------------- encoding

  function Quad(a: Byte, b: Byte, c: Byte): Bytes {
    [Symbol(a / 4), Symbol(a % 4 * 16 + b / 16), Symbol(b % 16 * 4 + c / 64), Symbol(c % 64)]
  }

  /** The one or two bytes that are left over. */
  function LastQuad(s: Bytes): Bytes
    requires 1 <= |s| <= 2
  {
    if |s| == 1 then [Symbol(s[0] / 4), Symbol(s[0] % 4 * 16), PAD, PAD]
    else [Symbol(s[0] / 4), Symbol(s[0] % 4 * 16 + s[1] / 16), Symbol(s[1] % 16 * 4), PAD]
  }

  /** The text without line feeds. */
  function Quads(s: Bytes): (t: Bytes)
    ensures |t| == (|s| + 2) / 3 * 4
  {
    if s == [] then [] else if |s| < 3 then LastQuad(s) else Quad(s[0], s[1], s[2]) + Quads(s[3..])
  }

  /** A text cut into lines of 72 characters, the last of which may be shorter; each line,
      full or not, ends in a line feed. */
  function Lines(t: Bytes): Bytes {
    if t == [] then [] else if |t| <= 72 then t + [NEWLINE] else t[..72] + [NEWLINE] + Lines(t[72..])
  }

  /** The rest of the text when a line of some length has been begun. */
  function EncodeFrom(s: Bytes, lineLen: nat): Bytes {
    if |s| >= 3 then
      Quad(s[0], s[1], s[2]) + (if lineLen + 4 >= 72 then [NEWLINE] +
          EncodeFrom(s[3..], 0) else EncodeFrom(s[3..], lineLen + 4))
    else if s != [] then LastQuad(s) + [NEWLINE]
    else if lineLen > 0 then [NEWLINE]
    else []
  }

  function Encoded(s: Bytes): Bytes {
    Lines(Quads(s))
  }

  lemma LinesLonger(t: Bytes, u: Bytes)
    requires |t| == 72
    ensures Lines(t + u) == t + [NEWLINE] + Lines(u)
  {
    if u == [] {
      assert t + u == t && t + [NEWLINE] + [] == t + [NEWLINE];
    } else {
      assert (t + u)[..72] == t && (t + u)[72..] == u;
    }
  }

  lemma LinesShort(t: Bytes)
    requires 0 < |t| <= 72
    ensures Lines(t) == t + [NEWLINE]
  {
  }

  /** Writing the text piece by piece gives it cut into lines. */
  lemma {:induction false} EncodeFromLines(s: Bytes, line: Bytes)
    requires |line| < 72 && |line| % 4 == 0
    ensures line + EncodeFrom(s, |line|) == Lines(line + Quads(s))
    decreases |s|
  {
    hide Quad, LastQuad, Lines;
    if |s| >= 3 {
      var q := Quad(s[0], s[1], s[2]);
      assert |q| == 4 by { QuadSize(s[0], s[1], s[2]); }
      Assoc(line, q, Quads(s[3..]));
      if |line| + 4 >= 72 {
        EncodeFromLines(s[3..], []);
        assert [] + EncodeFrom(s[3..], 0) == EncodeFrom(s[3..], 0) && [] + Quads(s[3..]) == Quads(s[3..]);
        LinesLonger(line + q, Quads(s[3..]));
        assert line + (q + ([NEWLINE] + EncodeFrom(s[3..], 0))) == (line + q) + [NEWLINE] + EncodeFrom(s[3..], 0);
      } else {
        EncodeFromLines(s[3..], line + q);
        Assoc(line, q, EncodeFrom(s[3..], |line| + 4));
      }
    } else if s != [] {
      assert |LastQuad(s)| == 4 by { EncodeStep(s, 0); }
      LinesShort(line + LastQuad(s));
      Assoc(line, LastQuad(s), [NEWLINE]);
    } else if line != [] {
      assert line + Quads(s) == line;
      LinesShort(line);
    } else {
      assert line + Quads(s) == [] && Lines([]) == [] by { LinesEmpty(); }
    }
  }

  lemma LinesEmpty()
    ensures Lines([]) == []
  {
  }

  lemma QuadSize(a: Byte, b: Byte, c: Byte)
    ensures |Quad(a, b, c)| == 4
  {
  }

  // ---------------------------------------------------------------- the size of the buffer

  /** The size computed for the buffer, in 64-bit arithmetic. */
  function Olen(len: nat): nat {
    var a := len * 4 % TWO_64 / 3 + 4;
    var b := (a + a / 72) % TWO_64;
    (b + 1) % TWO_64
  }

  /** Below 2^62 nothing wraps around. */
  lemma OlenExact(len: nat)
    requires len < 0x4000_0000_0000_0000
    ensures Olen(len) == len * 4 / 3 + 4 + (len * 4 / 3 + 4) / 72 + 1
  {
    assert len * 4 % TWO_64 == len * 4;
  }

  lemma Wrapped(len: nat, j: nat)
    requires j < 4 && j * 0x4000_0000_0000_0000 <= len < (j + 1) * 0x4000_0000_0000_0000
    ensures len * 4 % TWO_64 == (len - j * 0x4000_0000_0000_0000) * 4
  {
    assert len * 4 == (len - j * 0x4000_0000_0000_0000) * 4 + j * TWO_64;
  }

  lemma OlenOf(len: nat, m: nat)
    requires m == len * 4 % TWO_64 && m < TWO_64
    ensures Olen(len) == m / 3 + 4 + (m / 3 + 4) / 72 + 1
  {
  }

  lemma TooSmall(len: nat, m: nat)
    requires m <= (len - 0x4000_0000_0000_0000) * 4 && 0x4000_0000_0000_0000 <= len < TWO_64
    requires len < 0x8000_0000_0000_0000 || m <= (len - 0x8000_0000_0000_0000) * 4
    ensures m / 3 + 4 + (m / 3 + 4) / 72 + 1 < len
  {
    var a := m / 3 + 4;
    assert 3 * a <= m + 12 && 72 * (a / 72) <= a;
  }

  lemma OverflowAt(len: nat, j: nat)
    requires 1 <= j < 4 && j * 0x4000_0000_0000_0000 <= len < (j + 1) * 0x4000_0000_0000_0000
    ensures Olen(len) < len
  {
    Wrapped(len, j);
    var m := (len - j * 0x4000_0000_0000_0000) * 4;
    OlenOf(len, m);
    hide Olen;
    TooSmall(len, m);
  }

  /** The overflow check is exact: it refuses just the lengths that overflow. */
  lemma OverflowIff(len: nat)
    requires len < TWO_64
    ensures Olen(len) < len <==> len >= 0x4000_0000_0000_0000
  {
    var q := 0x4000_0000_0000_0000;
    if len < q { OlenExact(len); }
    else if len < 2 * q { OverflowAt(len, 1); }
    else if len < 3 * q { OverflowAt(len, 2); }
    else { OverflowAt(len, 3); }
  }

  lemma {:induction false} LinesSize(t: Bytes)
    ensures |Lines(t)| == |t| + (|t| + 71) / 72
    decreases |t|
  {
    if |t| > 72 { LinesSize(t[72..]); }
  }

  /** Text, line feeds and terminator always fit the buffer. They fill it exactly when one byte
      is left over and the last line is not full. */
  lemma EncodedFits(s: Bytes)
    requires |s| < 0x4000_0000_0000_0000
    ensures |Encoded(s)| + 1 <= Olen(|s|)
    ensures |Encoded(s)| + 1 == Olen(|s|) <==> |s| % 3 == 1 && (|s| + 2) / 3 % 18 != 0
  {
    LinesSize(Quads(s));
    var n, g := |s|, (|s| + 2) / 3;
    hide Quads, Lines;
    OlenExact(n);
    hide Olen;
    BufferArithmetic(n, g, g / 18, g % 18);
  }

  lemma BufferArithmetic(n: nat, g: nat, k: nat, r: nat)
    requires g == (n + 2) / 3 == 18 * k + r && r < 18
    ensures (4 * g + 71) / 72 == if r > 0 then k + 1 else k
    ensures var a := n * 4 / 3 + 4;
      && (n % 3 == 1 ==> a + a / 72 == 4 * g + 1 + k)
      && (n % 3 == 2 ==> a + a / 72 == 4 * g + 2 + k)
      && (n % 3 == 0 ==> a + a / 72 >= 4 * g + 4 + k)
  {
    var a := n * 4 / 3 + 4;
    if n % 3 == 1 {
      assert a == 72 * k + (4 * r + 1);
    } else if n % 3 == 2 {
      assert a == 72 * k + (4 * r + 2);
    } else {
      assert a == 72 * k + (4 * r + 4);
    }
  }

  lemma EncodeStep(s: Bytes, lineLen: nat)
    ensures |s| >= 3 ==>
      && |Quad(s[0], s[1], s[2])| == 4
      && EncodeFrom(s, lineLen) == Quad(s[0], s[1], s[2])
        + (if lineLen + 4 >= 72 then [NEWLINE] + EncodeFrom(s[3..], 0) else EncodeFrom(s[3..], lineLen + 4))
    ensures 1 <= |s| <= 2 ==> |LastQuad(s)| == 4 && EncodeFrom(s, lineLen) == LastQuad(s) + [NEWLINE]
    ensures s == [] ==> EncodeFrom(s, lineLen) == if lineLen > 0 then [NEWLINE] else []
  {
  }

  /** Four characters at a position of the buffer. */
  method PutQuad(buffer: array<Byte>, pos: nat, q: Bytes)
    requires |q| == 4 && pos + 4 <= buffer.Length
    modifies buffer
    ensures buffer[..pos + 4] == old(buffer[..pos]) + q
  {
    buffer[pos], buffer[pos + 1], buffer[pos + 2], buffer[pos + 3] := q[0], q[1], q[2], q[3];
  }

  /** Writes the text and its terminator into a buffer that has room for them. */
  method EncodeInto(src: array<Byte>, buffer: array<Byte>) returns (pos: nat)
    requires src != buffer && |EncodeFrom(src[..], 0)| < buffer.Length
    modifies buffer
    ensures pos < buffer.Length && buffer[pos] == 0 && buffer[..pos] == EncodeFrom(src[..], 0)
  {
    hide Quad, LastQuad, EncodeFrom;
    ghost var s, goal := src[..], EncodeFrom(src[..], 0);
    var len := src.Length;
    var i, lineLen := 0, 0;
    pos := 0;
    assert s[0..] == s && [] + goal == goal;
    while len - i >= 3
      invariant 0 <= i <= len && 0 <= lineLen < 72 && src[..] == s
      invariant pos <= buffer.Length && buffer[..pos] + EncodeFrom(s[i..], lineLen) == goal
    {
      EncodeStep(s[i..], lineLen);
      assert s[i..][3..] == s[i + 3..];
      ghost var before := buffer[..pos];
      var q := Quad(src[i], src[i + 1], src[i + 2]);
      PutQuad(buffer, pos, q);
      pos := pos + 4;
      i := i + 3;
      lineLen := lineLen + 4;
      if lineLen >= 72 {
        Assoc(before, q, [NEWLINE] + EncodeFrom(s[i..], 0));
        PutNewline(buffer, pos);
        Assoc(before + q, [NEWLINE], EncodeFrom(s[i..], 0));
        pos := pos + 1;
        lineLen := 0;
      } else {
        Assoc(before, q, EncodeFrom(s[i..], lineLen));
      }
    }
    EncodeStep(s[i..], lineLen);
    if len - i > 0 {
      ghost var before := buffer[..pos];
      PutQuad(buffer, pos, LastQuad(src[i..]));
      Assoc(before, LastQuad(s[i..]), [NEWLINE]);
      pos := pos + 4;
      lineLen := lineLen + 4;
    }
    if lineLen > 0 {
      PutNewline(buffer, pos);
      pos := pos + 1;
    }
    assert buffer[..pos] + [] == buffer[..pos];
    buffer[pos] := 0;
  }

  method PutNewline(buffer: array<Byte>, pos: nat)
    requires pos < buffer.Length
    modifies buffer
    ensures buffer[..pos + 1] == old(buffer[..pos]) + [NEWLINE]
  {
    buffer[pos] := NEWLINE;
  }

  /** The encoder; no result when the size overflows. */
  method Encode(src: array<Byte>) returns (out: array?<Byte>, outLen: nat)
    requires src.Length < TWO_64
    ensures out == null <==> src.Length >= 0x4000_0000_0000_0000
    ensures out != null ==> fresh(out) && out.Length == Olen(src.Length) && outLen < out.Length && out[outLen] == 0
    ensures out != null ==> out[..outLen] == Encoded(src[..])
  {
    var len := src.Length;
    var olen := Olen(len);
    OverflowIff(len);
    hide Olen, Quads, Lines, EncodeFrom;
    if olen < len {
      return null, 0;
    }
    EncodedFits(src[..]);
    EncodeFromLines(src[..], []);
    assert [] + Quads(src[..]) == Quads(src[..]) && [] + EncodeFrom(src[..], 0) == EncodeFrom(src[..], 0);
    var buffer := new Byte[olen];
    var pos := EncodeInto(src, buffer);
    out, outLen := buffer, pos;
  }

  // ---------------------------------------------------------------- decoding

  /** The characters that are not skipped. */
  function Filtered(t: Bytes): (r: Bytes)
    ensures |r| <= |t| && forall c :: c in r ==> Number(c) != SKIP
  {
    if t == [] then [] else (if Number(t[0]) == SKIP then [] else [t[0]]) + Filtered(t[1..])
  }

  function Pads(q: Bytes): (n: nat)
    ensures n <= |q|
  {
    if q == [] then 0 else (if q[0] == PAD then 1 else 0) + Pads(q[1..])
  }

  /** Four six-bit numbers put together to three bytes. */
  function Three(a: Byte, b: Byte, c: Byte, d: Byte): Bytes
    requires a < 64 && b < 64 && c < 64 && d < 64
  {
    [a * 4 % 256 + b / 16, b * 16 % 256 + c / 4, c * 64 % 256 + d]
  }

  function ThreeOf(q: Bytes): (r: Bytes)
    requires |q| == 4 && forall c :: c in q ==> Number(c) != SKIP
    ensures |r| == 3
  {
    Three(Number(q[0]), Number(q[1]), Number(q[2]), Number(q[3]))
  }

  /** Decoding stops at the first quad with padding, which must be of one or two characters. */
  function DecodeQuads(f: Bytes): Option<Bytes>
    requires |f| % 4 == 0 && forall c :: c in f ==> Number(c) != SKIP
    decreases |f|
  {
    if f == [] then Some([])
    else
      var q := f[..4];
      var n := Pads(q);
      if n == 0 then
        match DecodeQuads(f[4..])
        case None => None
        case Some(r) => Some(ThreeOf(q) + r)
      else if n <= 2 then Some(ThreeOf(q)[..3 - n])
      else None
  }

  function Decoded(t: Bytes): Option<Bytes> {
    var f := Filtered(t);
    if |f| == 0 || |f| % 4 != 0 then None else DecodeQuads(f)
  }

  /** The table of the numbers of all characters. */
  method MakeTable() returns (dtable: array<Byte>)
    ensures fresh(dtable) && dtable.Length == 256
    ensures forall c: Byte :: dtable[c] == Number(c)
  {
    dtable := new Byte[256](i => SKIP);
    var i := 0;
    while i < 64
      invariant 0 <= i <= 64
      invariant forall c: Byte :: dtable[c] == if Number(c) < i && c != PAD then Number(c) else SKIP
    {
      NumberOfSymbol(i);
      dtable[Symbol(i)] := i;
      i := i + 1;
    }
    dtable[PAD] := 0;
  }

  method CountSymbols(src: array<Byte>, dtable: array<Byte>) returns (count: nat)
    requires dtable.Length == 256 && forall c: Byte :: dtable[c] == Number(c)
    ensures count == |Filtered(src[..])|
  {
    ghost var s := src[..];
    count := 0;
    var i := 0;
    assert s[0..] == s;
    while i < src.Length
      invariant 0 <= i <= src.Length && count + |Filtered(s[i..])| == |Filtered(s)|
    {
      assert s[i..][1..] == s[i + 1..];
      if dtable[src[i]] != SKIP {
        count := count + 1;
      }
      i := i + 1;
    }
  }

  /** What decoding goes on to give when some symbols of a quad are already held. */
  ghost predicate Remains(goal: Option<Bytes>, done: Bytes, held: Bytes, rest: Bytes) {
    && |held + rest| % 4 == 0 && (forall c :: c in held + rest ==> Number(c) != SKIP)
    && goal == match DecodeQuads(held + rest) case None => None case Some(r) => Some(done + r)
  }

  lemma StartRemains(f: Bytes)
    requires |f| % 4 == 0 && forall c :: c in f ==> Number(c) != SKIP
    ensures Remains(DecodeQuads(f), [], [], f)
  {
    hide Number, DecodeQuads;
    assert [] + f == f;
    if DecodeQuads(f).Some? { assert [] + DecodeQuads(f).value == DecodeQuads(f).value; }
  }

  lemma QuadDone(goal: Option<Bytes>, done: Bytes, held: Bytes, rest: Bytes)
    requires Remains(goal, done, held, rest) && |held| == 4
    ensures forall c :: c in held ==> Number(c) != SKIP
    ensures Pads(held) == 0 ==> Remains(goal, done + ThreeOf(held), [], rest)
    ensures 1 <= Pads(held) <= 2 ==> goal == Some(done + ThreeOf(held)[..3 - Pads(held)])
    ensures Pads(held) > 2 ==> goal == None
  {
    hide Number, Pads, ThreeOf;
    var f := held + rest;
    assert forall c :: c in held ==> c in f;
    assert forall c :: c in rest ==> c in f;
    assert f[..4] == held && f[4..] == rest && [] + rest == rest;
    if Pads(held) == 0 && DecodeQuads(rest).Some? {
      Assoc(done, ThreeOf(held), DecodeQuads(rest).value);
    }
  }

  lemma NothingRemains(goal: Option<Bytes>, done: Bytes, held: Bytes)
    requires Remains(goal, done, held, []) && |held| < 4
    ensures goal == Some(done)
  {
    assert held + [] == [] && done + [] == done;
  }

  /** Writes three bytes at a position. */
  method PutThree(out: array<Byte>, pos: nat, block: array<Byte>, ghost q: Bytes)
    requires pos + 3 <= out.Length && block.Length == 4 && block != out && |q| == 4
    requires (forall c :: c in q ==> Number(c) != SKIP) && forall k :: 0 <= k < 4 ==> block[k] == Number(q[k])
    modifies out
    ensures out[..pos + 3] == old(out[..pos]) + ThreeOf(q)
  {
    assert forall k :: 0 <= k < 4 ==> q[k] in q;
    var r := Three(block[0], block[1], block[2], block[3]);
    out[pos], out[pos + 1], out[pos + 2] := r[0], r[1], r[2];
  }

  lemma PadsMore(q: Bytes, c: Byte)
    ensures Pads(q + [c]) == Pads(q) + if c == PAD then 1 else 0
  {
    if q != [] {
      assert (q + [c])[1..] == q[1..] + [c];
      PadsMore(q[1..], c);
    }
  }

  /** The decoder; no result when the number of symbols is zero or no multiple of four, or the
      padding is too long. */
  method Decode(src: array<Byte>) returns (out: array?<Byte>, outLen: nat)
    ensures match Decoded(src[..])
            case None => out == null
            case Some(r) => out != null && fresh(out) && outLen <= out.Length && out[..outLen] == r
  {
    var dtable := MakeTable();
    var count := CountSymbols(src, dtable);
    if count == 0 || count % 4 != 0 {
      return null, 0;
    }
    var olen := count / 4 * 3;
    var buffer := new Byte[olen];
    var ok;
    ok, outLen := DecodeInto(src, dtable, buffer);
    out := if ok then buffer else null;
  }

  lemma FilteredStep(s: Bytes, i: nat)
    requires i < |s|
    ensures Filtered(s[i..]) == if Number(s[i]) == SKIP then Filtered(s[i + 1..]) else [s[i]] + Filtered(s[i + 1..])
  {
    assert s[i..][1..] == s[i + 1..] && [] + Filtered(s[i + 1..]) == Filtered(s[i + 1..]);
  }

  lemma FilteredEnd(s: Bytes)
    ensures Filtered(s[|s|..]) == []
  {
  }

  lemma HoldMore(goal: Option<Bytes>, done: Bytes, held: Bytes, c: Byte, rest: Bytes)
    requires Remains(goal, done, held, [c] + rest)
    ensures Remains(goal, done, held + [c], rest)
  {
    hide DecodeQuads, Number;
    Assoc(held, [c], rest);
  }

  /** A full block is written out; padding shortens it and ends the text. */
  method FinishQuad(out: array<Byte>, at: nat, block: array<Byte>, pad: nat, ghost goal: Option<Bytes>,
        ghost held: Bytes, ghost rest: Bytes)
    returns (stop: bool, ok: bool, pos: nat)
    requires at + 3 <= out.Length && block.Length == 4 && block != out && |held| == 4 && pad == Pads(held)
    requires (forall k :: 0 <= k < 4 ==> block[k] == Number(held[k])) && Remains(goal, out[..at], held, rest)
    modifies out
    ensures stop <==> pad > 0
    ensures pad == 0 ==> pos == at + 3 && Remains(goal, out[..pos], [], rest)
    ensures pad > 0 && ok ==> pos <= out.Length && goal == Some(out[..pos])
    ensures pad > 0 && !ok ==> goal == None
  {
    hide Pads, ThreeOf, Number, DecodeQuads, Remains;
    ghost var done := out[..at];
    QuadDone(goal, done, held, rest);
    PutThree(out, at, block, held);
    pos := at + 3;
    stop, ok := pad > 0, true;
    if pad > 0 {
      assert pad <= 2 ==> out[..pos - pad] == out[..pos][..pos - pad] == done + ThreeOf(held)[..3 - pad];
      if pad == 1 {
        pos := pos - 1;
      } else if pad == 2 {
        pos := pos - 2;
      } else {
        ok := false;
      }
    }
  }

  method DecodeInto(src: array<Byte>, dtable: array<Byte>, out: array<Byte>) returns (ok: bool, pos: nat)
    requires dtable.Length == 256 && (forall c: Byte :: dtable[c] == Number(c)) && dtable != out && src != out
    requires |Filtered(src[..])| % 4 == 0 && out.Length == |Filtered(src[..])| / 4 * 3
    modifies out
    ensures match DecodeQuads(Filtered(src[..]))
            case None => !ok
            case Some(r) => ok && pos <= out.Length && out[..pos] == r
  {
    hide Pads, ThreeOf, Number, DecodeQuads, Filtered, Remains;
    ghost var s, goal := src[..], DecodeQuads(Filtered(src[..]));
    var block := new Byte[4];
    ghost var held: Bytes := [];
    var count, pad, i := 0, 0, 0;
    pos := 0;
    assert s[0..] == s && [] + Filtered(s) == Filtered(s);
    StartRemains(Filtered(s));
    while i < src.Length
      invariant 0 <= i <= src.Length && src[..] == s && (forall c: Byte :: dtable[c] == Number(c))
      invariant 0 <= count < 4 && |held| == count && pad == Pads(held)
      invariant forall k :: 0 <= k < count ==> block[k] == Number(held[k])
      invariant 4 * pos + 3 * (count + |Filtered(s[i..])|) == 4 * out.Length
      invariant Remains(goal, out[..pos], held, Filtered(s[i..]))
    {
      FilteredStep(s, i);
      var tmp := dtable[src[i]];
      if tmp == SKIP {
        i := i + 1;
        continue;
      }
      HoldMore(goal, out[..pos], held, s[i], Filtered(s[i + 1..]));
      PadsMore(held, s[i]);
      held := held + [s[i]];
      if src[i] == PAD {
        pad := pad + 1;
      }
      block[count] := tmp;
      count := count + 1;
      if count == 4 {
        var stop;
        stop, ok, pos := FinishQuad(out, pos, block, pad, goal, held, Filtered(s[i + 1..]));
        if stop {
          return;
        }
        count := 0;
        held := [];
      }
      i := i + 1;
    }
    FilteredEnd(s);
    NothingRemains(goal, out[..pos], held);
    ok := true;
  }

  // ---------------------------------------------------------------- the round trip

  lemma {:induction false} FilteredAppend(a: Bytes, b: Bytes)
    ensures Filtered(a + b) == Filtered(a) + Filtered(b)
  {
    hide Number;
    if a == [] {
      assert a + b == b && [] + Filtered(b) == Filtered(b);
    } else {
      assert (a + b)[1..] == a[1..] + b;
      FilteredAppend(a[1..], b);
      Assoc(if Number(a[0]) == SKIP then [] else [a[0]], Filtered(a[1..]), Filtered(b));
    }
  }

  lemma {:induction false} FilteredSymbols(t: Bytes)
    requires forall c :: c in t ==> Number(c) != SKIP
    ensures Filtered(t) == t
  {
    hide Number;
    if t != [] {
      assert forall c :: c in t[1..] ==> c in t;
      FilteredSymbols(t[1..]);
    }
  }

  lemma FilteredNewline()
    ensures Filtered([NEWLINE]) == []
  {
    assert Filtered([]) == [];
  }

  /** Line feeds are skipped, so the decoder sees the text as if it had not been cut. */
  lemma {:induction false} FilteredLines(t: Bytes)
    requires forall c :: c in t ==> Number(c) != SKIP
    ensures Filtered(Lines(t)) == t
    decreases |t|
  {
    hide Number, Filtered;
    FilteredNewline();
    if t == [] {
      FilteredSymbols(t);
    } else if |t| <= 72 {
      FilteredSymbols(t);
      FilteredAppend(t, [NEWLINE]);
      assert t + [] == t;
    } else {
      FilteredSymbols(t[..72]);
      FilteredLines(t[72..]);
      FilteredAppend(t[..72], [NEWLINE]);
      FilteredAppend(t[..72] + [NEWLINE], Lines(t[72..]));
      assert t[..72] + [] + t[72..] == t;
    }
  }

  lemma QuadBack(a: Byte, b: Byte, c: Byte)
    ensures var q := Quad(a, b, c);
      && |q| == 4 && (forall x :: x in q ==> Number(x) != SKIP) && Pads(q) == 0 && ThreeOf(q) == [a, b, c]
  {
    var w, x, y, z: nat := a / 4, a % 4 * 16 + b / 16, b % 16 * 4 + c / 64, c % 64;
    NumberOfSymbol(w);
    NumberOfSymbol(x);
    NumberOfSymbol(y);
    NumberOfSymbol(z);
    NoPads(Symbol(w), Symbol(x), Symbol(y), Symbol(z));
    hide Number, Symbol, Pads;
    ThreeBack(a, b, c);
  }

  lemma TopBits(a: Byte, b: Byte)
    ensures a / 4 * 4 % 256 + (a % 4 * 16 + b / 16) / 16 == a
  {
    assert (a % 4 * 16 + b / 16) / 16 == a % 4;
  }

  lemma MiddleBits(a: Byte, b: Byte, c: Byte)
    ensures (a % 4 * 16 + b / 16) * 16 % 256 + (b % 16 * 4 + c / 64) / 4 == b
  {
    assert (a % 4 * 16 + b / 16) * 16 == 256 * (a % 4) + 16 * (b / 16);
    assert (b % 16 * 4 + c / 64) / 4 == b % 16;
  }

  lemma LowBits(b: Byte, c: Byte)
    ensures (b % 16 * 4 + c / 64) * 64 % 256 + c % 64 == c
  {
    assert (b % 16 * 4 + c / 64) * 64 == 256 * (b % 16) + 64 * (c / 64);
  }

  lemma ThreeBack(a: Byte, b: Byte, c: Byte)
    ensures Three(a / 4, a % 4 * 16 + b / 16, b % 16 * 4 + c / 64, c % 64) == [a, b, c]
  {
    TopBits(a, b);
    MiddleBits(a, b, c);
    LowBits(b, c);
  }

  lemma PadsFirst(c: Byte, q: Bytes)
    ensures Pads([c] + q) == (if c == PAD then 1 else 0) + Pads(q)
  {
    assert ([c] + q)[1..] == q;
  }

  lemma NoPads(a: Byte, b: Byte, c: Byte, d: Byte)
    ensures Pads([a, b, c, d]) == (if a == PAD then 1 else 0) + (if b == PAD then 1 else 0) + (if c ==
        PAD then 1 else 0) + (if d == PAD then 1 else 0)
  {
    PadsFirst(d, []);
    PadsFirst(c, [d]);
    PadsFirst(b, [c, d]);
    PadsFirst(a, [b, c, d]);
    assert Pads([]) == 0 && [d] + [] == [d] && [c] + [d] == [c, d] && [b] + [c, d] == [b, c, d] &&
        [a] + [b, c, d] == [a, b, c, d];
  }

  lemma OneBack(a: Byte)
    ensures var q := LastQuad([a]);
      && |q| == 4 && (forall x :: x in q ==> Number(x) != SKIP) && Pads(q) == 2 && ThreeOf(q)[..1] == [a]
  {
    var w, x: nat := a / 4, a % 4 * 16;
    NumberOfSymbol(w);
    NumberOfSymbol(x);
    NoPads(Symbol(w), Symbol(x), PAD, PAD);
    assert Number(PAD) == 0;
    hide Number, Symbol, Pads;
    assert LastQuad([a]) == [Symbol(w), Symbol(x), PAD, PAD];
    TopBits(a, 0);
  }

  lemma TwoBack(a: Byte, b: Byte)
    ensures var q := LastQuad([a, b]);
      && |q| == 4 && (forall x :: x in q ==> Number(x) != SKIP) && Pads(q) == 1 && ThreeOf(q)[..2] == [a, b]
  {
    var w, x, y: nat := a / 4, a % 4 * 16 + b / 16, b % 16 * 4;
    NumberOfSymbol(w);
    NumberOfSymbol(x);
    NumberOfSymbol(y);
    NoPads(Symbol(w), Symbol(x), Symbol(y), PAD);
    assert Number(PAD) == 0;
    hide Number, Symbol, Pads;
    assert LastQuad([a, b]) == [Symbol(w), Symbol(x), Symbol(y), PAD];
    TopBits(a, b);
    MiddleBits(a, b, 0);
  }

  lemma LastBack(s: Bytes)
    requires 1 <= |s| <= 2
    ensures var q := LastQuad(s);
      && |q| == 4 && (forall x :: x in q ==> Number(x) != SKIP) && Pads(q) == 3 - |s| && ThreeOf(q)[..|s|] == s
  {
    hide LastQuad, Number, Pads, ThreeOf;
    if |s| == 1 {
      assert s == [s[0]];
      OneBack(s[0]);
    } else {
      assert s == [s[0], s[1]];
      TwoBack(s[0], s[1]);
    }
  }

  lemma {:induction false} QuadsDecode(s: Bytes)
    ensures forall c :: c in Quads(s) ==> Number(c) != SKIP
    ensures DecodeQuads(Quads(s)) == Some(s)
    decreases |s|
  {
    hide Quad, LastQuad, Number, Pads, ThreeOf;
    if |s| >= 3 {
      QuadBack(s[0], s[1], s[2]);
      QuadsDecode(s[3..]);
      var q, t := Quad(s[0], s[1], s[2]), Quads(s[3..]);
      assert (q + t)[..4] == q && (q + t)[4..] == t;
      assert [s[0], s[1], s[2]] + s[3..] == s;
    } else if s != [] {
      LastBack(s);
      assert LastQuad(s)[..4] == LastQuad(s);
    }
  }

  /** Decoding undoes encoding, line feeds and padding included, for all but the empty string,
      whose text is empty and refused. */
  lemma RoundTrip(s: Bytes)
    ensures Decoded(Encoded(s)) == if s == [] then None else Some(s)
  {
    hide Quads, Lines, Filtered, DecodeQuads;
    QuadsDecode(s);
    FilteredLines(Quads(s));
  }

  // ---------------------------------------------------------------- the form of the text

  /** Up to three bytes as one number of 24 bits, missing ones being zero. */
  function Group(s: Bytes): nat
    requires 1 <= |s|
  {
    0x1_0000 * s[0] as int + (if |s| > 1 then 0x100 * s[1] as int else 0) + (if |s| > 2 then s[2] as int else 0)
  }

  /** Its four digits to the base 64 by the alphabet; of those that hold no bit of a byte an equals
      sign. */
  predicate IsQuad(q: Bytes, s: Bytes)
    requires 1 <= |s|
  {
    var v := Group(s);
    && |q| == 4 && q[0] == AlphabetAt(v / 0x4_0000 % 64) as int && q[1] == AlphabetAt(v / 0x1000 % 64) as int
    && q[2] == (if |s| > 1 then AlphabetAt(v / 64 % 64) as int else 61)
    && q[3] == (if |s| > 2 then AlphabetAt(v % 64) as int else 61)
  }

  lemma LastDigit(q: nat, r: nat)
    requires r < 64
    ensures (64 * q + r) / 64 == q && (64 * q + r) % 64 == r
  {
  }

  lemma FourDigits(w: nat, x: nat, y: nat, z: nat)
    requires w < 64 && x < 64 && y < 64 && z < 64
    ensures var v := 64 * (64 * (64 * w + x) + y) + z;
      v / 0x4_0000 % 64 == w && v / 0x1000 % 64 == x && v / 64 % 64 == y && v % 64 == z
  {
    var v := 64 * (64 * (64 * w + x) + y) + z;
    LastDigit(64 * (64 * w + x) + y, z);
    LastDigit(64 * w + x, y);
    LastDigit(w, x);
    assert v / 0x1000 == v / 64 / 64 && v / 0x4_0000 == v / 64 / 64 / 64;
  }

  lemma SplitBytes(a: nat, b: nat, c: nat)
    ensures 64 * (64 * (64 * (a / 4) + (a % 4 * 16 + b / 16)) + (b % 16 * 4 + c / 64)) + c % 64 ==
      0x1_0000 * a + 0x100 * b + c
  {
    assert a == 4 * (a / 4) + a % 4 && b == 16 * (b / 16) + b % 16 && c == 64 * (c / 64) + c % 64;
  }

  lemma GroupDigits(a: nat, b: nat, c: nat)
    requires a < 256 && b < 256 && c < 256
    ensures var v := 0x1_0000 * a + 0x100 * b + c;
      && v / 0x4_0000 % 64 == a / 4 && v / 0x1000 % 64 == a % 4 * 16 + b / 16
      && v / 64 % 64 == b % 16 * 4 + c / 64 && v % 64 == c % 64
  {
    SplitBytes(a, b, c);
    FourDigits(a / 4, a % 4 * 16 + b / 16, b % 16 * 4 + c / 64, c % 64);
  }

  lemma OneQuad(s: Bytes)
    requires 1 <= |s| <= 3
    ensures IsQuad(if |s| == 3 then Quad(s[0], s[1], s[2]) else LastQuad(s), s)
  {
    hide Symbol, Number, AlphabetAt;
    var v := Group(s);
    GroupDigits(s[0], if |s| > 1 then s[1] else 0, if |s| > 2 then s[2] else 0);
    hide Group;
    SymbolIs(v / 0x4_0000 % 64);
    SymbolIs(v / 0x1000 % 64);
    SymbolIs(v / 64 % 64);
    SymbolIs(v % 64);
  }

  /** Each three bytes, and the one or two left over, make four characters in their place. */
  lemma {:induction false} QuadsForm(s: Bytes, g: nat)
    requires 3 * g < |s|
    ensures IsQuad(Quads(s)[4 * g..4 * g + 4], s[3 * g..if 3 * g + 3 <= |s| then 3 * g + 3 else |s|])
    decreases g
  {
    hide IsQuad, Quad, LastQuad, Quads;
    var end := if 3 * g + 3 <= |s| then 3 * g + 3 else |s|;
    QuadsTail(s);
    if |s| < 3 {
      OneQuad(s);
      assert Quads(s)[0..4] == LastQuad(s) && s[0..|s|] == s;
    } else if g == 0 {
      OneQuad(s[..3]);
      assert s[0..3] == s[..3];
    } else {
      QuadsForm(s[3..], g - 1);
      SliceLater(Quads(s), 4, 4 * g, 4 * g + 4);
      SliceLater(s, 3, 3 * g, end);
    }
  }

  lemma SliceLater(s: Bytes, n: nat, i: nat, j: nat)
    requires n <= i <= j <= |s|
    ensures s[i..j] == s[n..][i - n..j - n]
  {
  }

  lemma QuadsTail(s: Bytes)
    requires s != []
    ensures |s| < 3 ==> |LastQuad(s)| == 4 && Quads(s) == LastQuad(s)
    ensures |s| >= 3 ==> Quads(s)[0..4] == Quad(s[0], s[1], s[2]) && Quads(s)[4..] == Quads(s[3..])
  {
    hide Symbol;
  }

  /** After each 72 characters and at the end stands a line feed, and nowhere else. */
  lemma {:induction false} LinesForm(t: Bytes, i: nat)
    requires i < |t|
    ensures i + i / 72 < |Lines(t)| && Lines(t)[i + i / 72] == t[i]
    ensures i % 72 == 71 || i == |t| - 1 ==> i + i / 72 + 1 < |Lines(t)| && Lines(t)[i + i / 72 + 1] == 10
    decreases |t|
  {
    if i >= 72 {
      LinesForm(t[72..], i - 72);
    }
  }
}
