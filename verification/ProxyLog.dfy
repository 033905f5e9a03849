/**
 Logging a proxy command's standard error: a buffer of fixed size that turns whatever pieces
 arrive into log messages, one for each line.
 */
module ProxyLog {
  import opened Marshal

  const LF: Byte := 10
  const CR: Byte := 13

  /** A line without its line feed, or a bufferful without any. */
  datatype Piece = Line(raw: Bytes) | Partial(raw: Bytes)

  datatype Message = Message(prefix: string, text: Bytes)

  // ---------------------------------------------------------------- one byte at a time

  function Step(size: nat, pending: Bytes, c: Byte): (seq<Piece>, Bytes) {
    if c == LF then ([Line(pending)], [])
    else if |pending| + 1 == size then ([Partial(pending + [c])], [])
    else ([], pending + [c])
  }

  function Feed(size: nat, pending: Bytes, data: Bytes): (seq<Piece>, Bytes)
    decreases |data|
  {
    if data == [] then ([], pending)
    else
      var (first, pending1) := Step(size, pending, data[0]);
      var (rest, pending2) := Feed(size, pending1, data[1..]);
      (first + rest, pending2)
  }

  function Trimmed(s: Bytes): Bytes {
    if s != [] && s[|s| - 1] in {LF, CR} then Trimmed(s[..|s| - 1]) else s
  }

  /** What printing a string of bytes up to a given length prints: nothing from a zero on. */
  function Printed(s: Bytes): Bytes {
    s[..FindNul(s)]
  }

  function MessageOf(p: Piece): Message {
    match p
    case Line(raw) => Message("proxy: ", Printed(Trimmed(raw)))
    case Partial(raw) => Message("proxy (partial line): ", Printed(raw))
  }

  function Messages(ps: seq<Piece>): (r: seq<Message>)
    ensures |r| == |ps|
  {
    seq(|ps|, i requires 0 <= i < |ps| => MessageOf(ps[i]))
  }

  // ---------------------------------------------------------------- the buffer

  class ProxyStderrBuf {
    const buf: array<Byte>
    var size: nat

    ghost predicate Valid()
      reads this, buf
    {
      size < buf.Length && LF !in buf[..size]
    }

    ghost function Pending(): Bytes
      requires Valid()
      reads this, buf
    {
      buf[..size]
    }

    constructor (capacity: nat)
      requires capacity > 0
      ensures Valid() && Pending() == [] && buf.Length == capacity && fresh(buf)
    {
      buf := new Byte[capacity];
      size := 0;
    }

    /** The messages are those of the byte-at-a-time splitter. */
    method LogProxyStderr(data: Bytes) returns (logged: seq<Message>)
      requires Valid()
      modifies this, buf
      ensures Valid()
      ensures var (pieces, pending) := Feed(buf.Length, old(Pending()), data);
        logged == Messages(pieces) && Pending() == pending
    {
      hide Feed;
      logged := [];
      ghost var done: seq<Piece> := [];
      ghost var goal := Feed(buf.Length, Pending(), data);
      assert [] + goal.0 == goal.0;
      var i := 0;
      assert data[0..] == data;
      while i < |data|
        invariant 0 <= i <= |data| && Valid() && logged == Messages(done)
        invariant var (rest, pending) := Feed(buf.Length, Pending(), data[i..]); goal == (done + rest, pending)
      {
        var toConsume := buf.Length - size;
        if toConsume > |data| - i {
          toConsume := |data| - i;
        }
        var chunk := data[i..i + toConsume];
        ghost var before, rest := Pending(), data[i + toConsume..];
        FeedChunk(buf.Length, before, chunk, rest);
        assert chunk + rest == data[i..];
        Append(chunk);
        i := i + toConsume;
        var messages := OutputLines(before + chunk);
        ghost var pieces := Feed(buf.Length, [], before + chunk).0;
        ghost var after := Feed(buf.Length, Pending(), rest).0;
        assert done + (pieces + after) == (done + pieces) + after;
        MessagesAppend(done, pieces);
        logged := logged + messages;
        done := done + pieces;
      }
      FeedNothing(buf.Length, Pending());
      assert data[|data|..] == [] && done + [] == done;
    }

    method Append(chunk: Bytes)
      requires size + |chunk| <= buf.Length
      modifies this, buf
      ensures size == old(size) + |chunk| && buf[..size] == old(buf[..size]) + chunk
    {
      forall k | 0 <= k < |chunk| {
        buf[size + k] := chunk[k];
      }
      size := size + |chunk|;
    }

    /** Where the line that ends at a line feed ends when trailing CRs are dropped. */
    method TrimmedEnd(pos: nat, nlpos: nat) returns (endpos: nat)
      requires pos <= nlpos <= buf.Length
      ensures pos <= endpos <= nlpos && buf[pos..endpos] == Trimmed(buf[pos..nlpos])
    {
      endpos := nlpos;
      while endpos > pos && (buf[endpos - 1] == LF || buf[endpos - 1] == CR)
        invariant pos <= endpos <= nlpos && Trimmed(buf[pos..nlpos]) == Trimmed(buf[pos..endpos])
      {
        assert buf[pos..endpos][..endpos - pos - 1] == buf[pos..endpos - 1];
        endpos := endpos - 1;
      }
    }

    /** Logs every line that ends in the buffer; the rest begins at the resulting position. */
    method FullLines(ghost b: Bytes) returns (logged: seq<Message>, pos: nat, ghost pieces: seq<Piece>)
      requires 0 < size <= buf.Length && buf[..size] == b
      ensures pos <= size && LF !in b[pos..] && logged == Messages(pieces) && (pos == 0 ==> pieces == [])
      ensures FeedFrom(buf.Length, b, pieces, pos)
    {
      hide Feed, Trimmed, FeedFrom, Printed;
      logged, pos, pieces := [], 0, [];
      FeedFromStart(buf.Length, b);
      while pos < size
        invariant pos <= size && logged == Messages(pieces) && (pos == 0 ==> pieces == [])
        invariant FeedFrom(buf.Length, b, pieces, pos)
      {
        var nlpos := pos + FindLf(buf[pos..size]);
        assert buf[pos..size] == b[pos..];
        if nlpos == size {
          return;
        }
        var endpos := TrimmedEnd(pos, nlpos);
        logged := logged + [Message("proxy: ", Printed(buf[pos..endpos]))];
        assert buf[pos..nlpos] == buf[..size][pos..nlpos] == b[pos..nlpos];
        LineStep(buf.Length, b, pieces, pos, nlpos);
        MessagesAppend(pieces, [Line(b[pos..nlpos])]);
        pieces := pieces + [Line(b[pos..nlpos])];
        pos := nlpos + 1;
      }
    }

    /** Logs the lines in the buffer, or all of it when it is full without one, and moves what
        is left to the front. */
    method OutputLines(ghost b: Bytes) returns (logged: seq<Message>)
      requires 0 < size <= buf.Length && buf[..size] == b
      modifies this, buf
      ensures Valid()
      ensures var (pieces, pending) := Feed(buf.Length, [], b); logged == Messages(pieces) && Pending() == pending
    {
      hide Feed;
      var pos;
      ghost var pieces;
      logged, pos, pieces := FullLines(b);
      if pos == 0 && size == buf.Length {
        assert b[0..] == b;
        FeedFull(buf.Length, [], b);
        assert [] + b == b;
        logged := logged + [Message("proxy (partial line): ", Printed(buf[..size]))];
        pos, size := 0, 0;
      } else {
        FeedShort(buf.Length, [], b[pos..]);
        assert [] + b[pos..] == b[pos..] && pieces + [] == pieces;
      }
      var newsize := size - pos;
      ghost var rest := buf[pos..size];
      forall k | 0 <= k < newsize {
        buf[k] := buf[pos + k];
      }
      size := newsize;
      assert buf[..size] == rest;
    }
  }

  // ---------------------------------------------------------------- the splitter

  /** The position of the first line feed, or the length when there is none. */
  function FindLf(s: Bytes): (n: nat)
    ensures n <= |s| && (n < |s| ==> s[n] == LF) && LF !in s[..n]
  {
    if s == [] || s[0] == LF then 0
    else
      assert s[..1 + FindLf(s[1..])] == [s[0]] + s[1..][..FindLf(s[1..])];
      1 + FindLf(s[1..])
  }

  /** Feeding everything gives these pieces and then what the rest of the buffer gives. */
  ghost predicate FeedFrom(size: nat, b: Bytes, pieces: seq<Piece>, pos: nat) {
    pos <= |b| && Feed(size, [], b) == (pieces + Feed(size, [], b[pos..]).0, Feed(size, [], b[pos..]).1)
  }

  lemma FeedFromStart(size: nat, b: Bytes)
    ensures FeedFrom(size, b, [], 0)
  {
    assert b[0..] == b && [] + Feed(size, [], b).0 == Feed(size, [], b).0;
  }

  lemma {:induction false} FeedAppend(size: nat, pending: Bytes, a: Bytes, b: Bytes)
    ensures var (first, middle) := Feed(size, pending, a);
      Feed(size, pending, a + b) == (first + Feed(size, middle, b).0, Feed(size, middle, b).1)
    decreases |a|
  {
    hide Step;
    if a == [] {
      assert a + b == b && [] + Feed(size, pending, b).0 == Feed(size, pending, b).0;
    } else {
      var (one, pending1) := Step(size, pending, a[0]);
      assert (a + b)[1..] == a[1..] + b;
      FeedAppend(size, pending1, a[1..], b);
      var (two, middle) := Feed(size, pending1, a[1..]);
      assert one + (two + Feed(size, middle, b).0) == (one + two) + Feed(size, middle, b).0;
    }
  }

  /** Fewer bytes than fill the buffer, with no line feed, stay pending. */
  lemma {:induction false} FeedShort(size: nat, pending: Bytes, s: Bytes)
    requires LF !in s && |pending| + |s| < size
    ensures Feed(size, pending, s) == ([], pending + s)
    decreases |s|
  {
    if s == [] {
      assert pending + s == pending;
    } else {
      assert s[0] in s && forall c :: c in s[1..] ==> c in s;
      FeedShort(size, pending + [s[0]], s[1..]);
      assert pending + [s[0]] + s[1..] == pending + s;
      var none: seq<Piece> := [];
      assert none + none == none;
    }
  }

  lemma FeedOne(size: nat, pending: Bytes, c: Byte)
    ensures Feed(size, pending, [c]) == Step(size, pending, c)
  {
    assert [c][1..] == [];
    assert Step(size, pending, c).0 + [] == Step(size, pending, c).0;
  }

  lemma FeedFull(size: nat, pending: Bytes, s: Bytes)
    requires LF !in s && s != [] && |pending| + |s| == size
    ensures Feed(size, pending, s) == ([Partial(pending + s)], [])
  {
    hide Feed;
    var front, last := s[..|s| - 1], s[|s| - 1];
    assert s == front + [last] && last in s && forall c :: c in front ==> c in s;
    FeedShort(size, pending, front);
    FeedOne(size, pending + front, last);
    FeedAppend(size, pending, front, [last]);
    assert pending + front + [last] == pending + s;
    assert [] + [Partial(pending + s)] == [Partial(pending + s)];
  }

  lemma LineStep(size: nat, b: Bytes, pieces: seq<Piece>, pos: nat, nlpos: nat)
    requires FeedFrom(size, b, pieces, pos) && pos <= nlpos < |b| <= size && b[nlpos] == LF && LF !in b[pos..nlpos]
    ensures FeedFrom(size, b, pieces + [Line(b[pos..nlpos])], nlpos + 1)
  {
    hide Feed;
    var line, tail := b[pos..nlpos], b[nlpos + 1..];
    assert b[pos..] == line + ([LF] + tail);
    FeedShort(size, [], line);
    assert [] + line == line;
    FeedAppend(size, [], line, [LF] + tail);
    FeedAppend(size, line, [LF], tail);
    FeedOne(size, line, LF);
    var after := Feed(size, [], tail).0;
    assert [] + ([Line(line)] + after) == [Line(line)] + after;
    assert pieces + ([Line(line)] + after) == (pieces + [Line(line)]) + after;
  }

  /** Feeding a chunk and then the rest, seen from an empty buffer holding what was pending. */
  lemma FeedChunk(size: nat, pending: Bytes, chunk: Bytes, rest: Bytes)
    requires LF !in pending && |pending| < size
    ensures var (first, middle) := Feed(size, [], pending + chunk);
      Feed(size, pending, chunk + rest) == (first + Feed(size, middle, rest).0, Feed(size, middle, rest).1)
  {
    hide Feed;
    FeedAppend(size, pending, chunk, rest);
    FeedShort(size, [], pending);
    assert [] + pending == pending;
    FeedAppend(size, [], pending, chunk);
    var first := Feed(size, pending, chunk).0;
    assert [] + first == first;
  }

  lemma FeedNothing(size: nat, pending: Bytes)
    ensures Feed(size, pending, []) == ([], pending)
  {
  }

  lemma MessagesAppend(a: seq<Piece>, b: seq<Piece>)
    ensures Messages(a + b) == Messages(a) + Messages(b)
  {
  }

  // ---------------------------------------------------------------- what the splitter promises

  function FeedChunks(size: nat, pending: Bytes, chunks: seq<Bytes>): (seq<Piece>, Bytes)
    decreases chunks
  {
    if chunks == [] then ([], pending)
    else
      var (first, pending1) := Feed(size, pending, chunks[0]);
      var (rest, pending2) := FeedChunks(size, pending1, chunks[1..]);
      (first + rest, pending2)
  }

  function Concat(chunks: seq<Bytes>): Bytes
    decreases chunks
  {
    if chunks == [] then [] else chunks[0] + Concat(chunks[1..])
  }

  /** How the stream is cut into calls makes no difference. */
  lemma {:induction false} ChunkingIrrelevant(size: nat, pending: Bytes, chunks: seq<Bytes>)
    ensures FeedChunks(size, pending, chunks) == Feed(size, pending, Concat(chunks))
    decreases chunks
  {
    hide Feed;
    if chunks == [] {
      FeedNothing(size, pending);
    } else {
      FeedAppend(size, pending, chunks[0], Concat(chunks[1..]));
      ChunkingIrrelevant(size, Feed(size, pending, chunks[0]).1, chunks[1..]);
    }
  }

  /** The bytes a list of pieces came from. */
  function Source(pieces: seq<Piece>): Bytes
    decreases pieces
  {
    if pieces == [] then [] else pieces[0].raw + (if pieces[0].Line? then [LF] else []) + Source(pieces[1..])
  }

  predicate GoodPiece(size: nat, p: Piece) {
    LF !in p.raw && if p.Line? then |p.raw| < size else |p.raw| == size
  }

  /** No byte is lost, added or moved: the pieces and what is pending make up the stream. Lines
      hold no line feed and are shorter than the buffer, other pieces fill it exactly. */
  lemma {:induction false} NothingLost(size: nat, pending: Bytes, data: Bytes)
    requires LF !in pending && |pending| < size
    ensures var (pieces, after) := Feed(size, pending, data);
      && Source(pieces) + after == pending + data && LF !in after && |after| < size
      && forall p :: p in pieces ==> GoodPiece(size, p)
    decreases |data|
  {
    if data == [] {
      assert pending + [] == pending && [] + pending == pending;
    } else {
      var (first, pending1) := Step(size, pending, data[0]);
      NothingLost(size, pending1, data[1..]);
      var (rest, after) := Feed(size, pending1, data[1..]);
      assert Source([]) == [];
      if first == [] {
        assert [] + rest == rest;
        assert pending + [data[0]] + data[1..] == pending + data;
      } else {
        assert (first + rest)[1..] == rest && (first + rest)[0] == first[0];
        StepSource(first[0], Source(rest), after, pending, data);
      }
    }
  }

  lemma StepSource(p: Piece, rest: Bytes, after: Bytes, pending: Bytes, data: Bytes)
    requires data != [] && rest + after == data[1..]
    requires p.raw + (if p.Line? then [LF] else []) == pending + [data[0]]
    ensures p.raw + (if p.Line? then [LF] else []) + rest + after == pending + data
  {
    var x := p.raw + (if p.Line? then [LF] else []);
    assert x + rest + after == x + (rest + after);
    assert pending + [data[0]] + data[1..] == pending + data;
  }
  /** Only the line ends and returns that close a line are dropped, and all of them. */
  lemma {:induction false} TrimmedIs(s: Bytes)
    ensures var t := Trimmed(s);
      && |t| <= |s| && t == s[..|t|] && (t != [] ==> t[|t| - 1] !in {10, 13})
      && forall i :: |t| <= i < |s| ==> s[i] in {10, 13}
  {
    if s != [] && s[|s| - 1] in {LF, CR} {
      var front := s[..|s| - 1];
      TrimmedIs(front);
      assert Trimmed(front) == s[..|Trimmed(front)|];
    }
  }

  /** A line is logged under one name and a bufferful without a line end under another, the line
      trimmed; both end before their first zero byte. */
  lemma MessageIs(p: Piece)
    ensures var m, s := MessageOf(p), if p.Line? then Trimmed(p.raw) else p.raw;
      && m.prefix == (if p.Line? then "proxy: " else "proxy (partial line): ")
      && m.text <= s && 0 !in m.text && (m.text != s ==> s[|m.text|] == 0)
  {
  }
}
