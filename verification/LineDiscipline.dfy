/**
 Local line editing: keys change an edit buffer, and everything that is shown of it is echoed
 as it changes, so that the cursor always stands behind the text in the buffer.
 */
module LineDiscipline {
  import opened Marshal

  datatype Protocol = Raw | Telnet | Other

  /** The settings, and the column of the cursor at the start. */
  datatype Config = Config(utf: bool, echo: bool, protocol: Protocol, telnetKeyboard: bool, telnetNewline: bool,
      origin: nat)

  datatype Special = EraseLine | InterruptProcess | Suspend | Abort | EndOfFile | EndOfLine

  /** What goes to the back end. */
  datatype Action = Send(data: Bytes) | Do(special: Special)

  // ---------------------------------------------------------------- how bytes are shown

  predicate Follows(c: Byte) {
    0x80 <= c < 0xC0
  }

  /** The number of columns a byte of the buffer takes. */
  function Plen(utf: bool, c: Byte): nat {
    if 32 <= c <= 126 || (c >= 160 && !utf) then 1
    else if c < 128 then 2
    else if utf && c >= 0xC0 then 1
    else if utf && Follows(c) then 0
    else 4
  }

  function HexDigit(v: nat): Byte
    requires v < 16
  {
    if v < 10 then 48 + v else 55 + v
  }

  /** What is written for a byte: itself, a caret and a letter, or its number in hexadecimal. */
  function Shown(utf: bool, c: Byte): Bytes {
    if 32 <= c <= 126 || (!utf && c >= 0xA0) || (utf && c >= 0x80) then [c]
    else if c < 128 then [94, if c == 127 then 63 else c + 0x40]
    else [60, HexDigit(c / 16), HexDigit(c % 16), 62]
  }

  predicate CharStart(utf: bool, c: Byte) {
    !utf || !Follows(c)
  }

  predicate IsSpace(c: Byte) {
    c == 32 || 9 <= c <= 13
  }

  function Bsb(n: nat): (r: Bytes)
  {
    if n == 0 then [] else Bsb(n - 1) + [8, 32, 8]
  }

  function Width(utf: bool, buf: Bytes): nat {
    if buf == [] then 0 else Width(utf, buf[..|buf| - 1]) + Plen(utf, buf[|buf| - 1])
  }

  function ShownAll(utf: bool, buf: Bytes): Bytes {
    if buf == [] then [] else ShownAll(utf, buf[..|buf| - 1]) + Shown(utf, buf[|buf| - 1])
  }

  // ---------------------------------------------------------------- a terminal's cursor

  /** The column of the cursor of a terminal without a right margin after one byte. */
  function Column(utf: bool, col: nat, b: Byte): nat {
    if b == 8 then (if col > 0 then col - 1 else 0)
    else if b == 13 then 0
    else if b == 10 || (utf && Follows(b)) then col
    else col + 1
  }

  function Columns(utf: bool, col: nat, bytes: Bytes): nat {
    if bytes == [] then col else Column(utf, Columns(utf, col, bytes[..|bytes| - 1]), bytes[|bytes| - 1])
  }

  lemma {:induction false} ColumnsAppend(utf: bool, col: nat, a: Bytes, b: Bytes)
    ensures Columns(utf, col, a + b) == Columns(utf, Columns(utf, col, a), b)
    decreases |b|
  {
    if b == [] {
      assert a + b == a;
    } else {
      assert (a + b)[..|a + b| - 1] == a + b[..|b| - 1];
      ColumnsAppend(utf, col, a, b[..|b| - 1]);
    }
  }

  lemma ColumnsOne(utf: bool, col: nat, b: Byte)
    ensures Columns(utf, col, [b]) == Column(utf, col, b)
  {
    assert [b][..0] == [];
  }

  lemma ColumnsThree(utf: bool, col: nat, a: Byte, b: Byte, c: Byte)
    ensures Columns(utf, col, [a, b, c]) == Column(utf, Column(utf, Column(utf, col, a), b), c)
  {
    ColumnsOne(utf, col, a);
    ColumnsAppend(utf, col, [a], [b]);
    ColumnsOne(utf, Column(utf, col, a), b);
    ColumnsAppend(utf, col, [a] + [b], [c]);
    ColumnsOne(utf, Columns(utf, col, [a] + [b]), c);
    assert [a] + [b] + [c] == [a, b, c];
  }

  /** A byte takes as many columns as it is said to. */
  lemma ShownColumns(utf: bool, col: nat, c: Byte)
    ensures Columns(utf, col, Shown(utf, c)) == col + Plen(utf, c)
  {
    var s := Shown(utf, c);
    if |s| == 1 {
      ColumnsOne(utf, col, c);
    } else if |s| == 2 {
      ColumnsAppend(utf, col, [s[0]], [s[1]]);
      ColumnsOne(utf, col, s[0]);
      ColumnsOne(utf, col + 1, s[1]);
      assert s == [s[0]] + [s[1]];
    } else {
      ColumnsAppend(utf, col, [s[0]], [s[1], s[2], s[3]]);
      ColumnsOne(utf, col, s[0]);
      ColumnsThree(utf, col + 1, s[1], s[2], s[3]);
      assert s == [s[0]] + [s[1], s[2], s[3]];
    }
  }

  /** Erasing moves the cursor back by so many columns. */
  lemma {:induction false} BsbColumns(utf: bool, col: nat, n: nat)
    requires n <= col
    ensures Columns(utf, col, Bsb(n)) == col - n
  {
    if n > 0 {
      BsbColumns(utf, col, n - 1);
      ColumnsAppend(utf, col, Bsb(n - 1), [8, 32, 8]);
      ColumnsThree(utf, col - (n - 1), 8, 32, 8);
    }
  }

  /** On the way it is never further back. */
  lemma {:induction false} BsbNeverFurther(utf: bool, col: nat, n: nat, k: nat)
    requires n <= col && k <= |Bsb(n)|
    ensures Columns(utf, col, Bsb(n)[..k]) >= col - n
  {
    if n > 0 {
      var front := Bsb(n - 1);
      BsbColumns(utf, col, n - 1);
      if k <= |front| {
        BsbNeverFurther(utf, col, n - 1, k);
        assert Bsb(n)[..k] == front[..k];
      } else {
        BsbInside(utf, col, front, k - |front|);
        assert Bsb(n)[..k] == front + [8, 32, 8][..k - |front|];
      }
    }
  }

  lemma BsbInside(utf: bool, col: nat, front: Bytes, j: nat)
    requires 1 <= j <= 3
    ensures Columns(utf, col, front + [8, 32, 8][..j]) >= Columns(utf, col, front) - 1
  {
    var at := Columns(utf, col, front);
    ColumnsAppend(utf, col, front, [8, 32, 8][..j]);
    if j == 1 {
      assert [8, 32, 8][..1] == [8];
      ColumnsOne(utf, at, 8);
    } else if j == 2 {
      assert [8, 32, 8][..2] == [8] + [32];
      ColumnsAppend(utf, at, [8], [32]);
      ColumnsOne(utf, at, 8);
      ColumnsOne(utf, Column(utf, at, 8), 32);
    } else {
      assert [8, 32, 8][..3] == [8, 32, 8];
      ColumnsThree(utf, at, 8, 32, 8);
    }
  }

  lemma {:induction false} ShownAllColumns(utf: bool, col: nat, buf: Bytes)
    ensures Columns(utf, col, ShownAll(utf, buf)) == col + Width(utf, buf)
    decreases |buf|
  {
    hide Shown, Plen;
    if buf != [] {
      var front := buf[..|buf| - 1];
      ShownAllColumns(utf, col, front);
      ColumnsAppend(utf, col, ShownAll(utf, front), Shown(utf, buf[|buf| - 1]));
      ShownColumns(utf, col + Width(utf, front), buf[|buf| - 1]);
    }
  }

  // ---------------------------------------------------------------- keys

  const FLAG := 0x100

  /** The buffer, whether the next key is quoted, what was written and sent so far, and the column
      at which the present line began. */
  datatype State = State(buf: Bytes, quotenext: bool, out: Bytes, sent: seq<Action>, begin: nat)

  function Echo(cfg: Config, s: State, bytes: Bytes): State {
    if cfg.echo then s.(out := s.out + bytes) else s
  }

  function EraseOne(cfg: Config, s: State): (t: State)
    requires s.buf != []
    ensures t.buf == s.buf[..|s.buf| - 1]
  {
    Echo(cfg, s, Bsb(Plen(cfg.utf, s.buf[|s.buf| - 1]))).(buf := s.buf[..|s.buf| - 1])
  }

  function EraseTo(cfg: Config, s: State, n: nat): State
    requires n <= |s.buf|
    decreases |s.buf|
  {
    if n == |s.buf| then s else EraseTo(cfg, EraseOne(cfg, s), n)
  }

  /** Whether a backspace would find a place to stop: a buffer of nothing but follow-up bytes has
      none. */
  predicate HasStart(utf: bool, buf: Bytes) {
    exists i :: 0 <= i < |buf| && CharStart(utf, buf[i])
  }

  /** Where the last character of the buffer begins. */
  function LastChar(utf: bool, buf: Bytes): (k: nat)
    requires HasStart(utf, buf)
    ensures k < |buf| && CharStart(utf, buf[k]) && forall i :: k < i < |buf| ==> !CharStart(utf, buf[i])
  {
    if CharStart(utf, buf[|buf| - 1]) then |buf| - 1
    else
      StartBefore(utf, buf);
      LastChar(utf, buf[..|buf| - 1])
  }

  lemma StartBefore(utf: bool, buf: Bytes)
    requires HasStart(utf, buf) && !CharStart(utf, buf[|buf| - 1])
    ensures HasStart(utf, buf[..|buf| - 1])
  {
    var i :| 0 <= i < |buf| && CharStart(utf, buf[i]);
    assert buf[..|buf| - 1][i] == buf[i];
  }

  /** Where the last word of the buffer begins. */
  function LastWord(buf: Bytes): (k: nat)
    requires buf != []
    ensures k < |buf|
  {
    var n := |buf| - 1;
    if n == 0 || (IsSpace(buf[n - 1]) && !IsSpace(buf[n])) then n else LastWord(buf[..n])
  }

  function Insert(cfg: Config, s: State, c: Byte): State {
    Echo(cfg, s, Shown(cfg.utf, c)).(buf := s.buf + [c], quotenext := false)
  }

  function SendLine(cfg: Config, s: State): State {
    var line := if s.buf != [] then [Send(s.buf)] else [];
    var end := if cfg.protocol == Raw then Send([13, 10]) else if cfg.protocol == Telnet &&
        cfg.telnetNewline then Do(EndOfLine) else Send([13]);
    Echo(cfg, s, [13, 10]).(buf := [], sent := s.sent + line + [end], begin := 0)
  }

  function SpecialOf(c: int): seq<Action> {
    if c == 3 then [Do(InterruptProcess)] else if c == 26 then [Do(Suspend)] else if c == 28 then [Do(Abort)] else []
  }

  function KillLine(cfg: Config, s: State, c: Byte): State {
    var s1 := EraseTo(cfg, s, 0);
    var s2 := s1.(sent := s1.sent + [Do(EraseLine)]);
    if cfg.telnetKeyboard then s2.(sent := s2.sent + SpecialOf(c)) else Insert(cfg, s2, c)
  }

  function Redraw(cfg: Config, s: State): State {
    if cfg.echo then s.(out := s.out + [94, 82, 13, 10] + ShownAll(cfg.utf, s.buf), begin := 0) else s
  }

  function SendOrEof(cfg: Config, s: State): State {
    if s.buf == [] then s.(sent := s.sent + [Do(EndOfFile)])
    else s.(sent := s.sent + [Send(s.buf)], buf := [], begin := s.begin + Width(cfg.utf, s.buf))
  }

  function LineFeed(cfg: Config, s: State): State {
    if cfg.protocol == Raw && s.buf != [] && s.buf[|s.buf| - 1] ==
        13 then SendLine(cfg, EraseOne(cfg, s)) else Insert(cfg, s, 10)
  }

  predicate IsBackspace(c: int) {
    c == FLAG + 8 || c == FLAG + 127
  }

  predicate Safe(cfg: Config, s: State, c: int) {
    IsBackspace(c) && !s.quotenext && s.buf != [] ==> HasStart(cfg.utf, s.buf)
  }

  /** One key; those of the keyboard's own, not of the text, carry a flag. */
  function Key(cfg: Config, s: State, c: int): State
    requires Safe(cfg, s, c)
  {
    if s.quotenext then Insert(cfg, s, c % 256)
    else if IsBackspace(c) then (if s.buf == [] then s else EraseTo(cfg, s, LastChar(cfg.utf, s.buf)))
    else if c == 23 then (if s.buf == [] then s else EraseTo(cfg, s, LastWord(s.buf)))
    else if c in {21, 3, 28, 26} then KillLine(cfg, s, c)
    else if c == 18 then Redraw(cfg, s)
    else if c == 22 then s.(quotenext := true)
    else if c == 4 then SendOrEof(cfg, s)
    else if c == 10 then LineFeed(cfg, s)
    else if c == FLAG + 13 then SendLine(cfg, s)
    else Insert(cfg, s, c % 256)
  }

  /** The codes of the keys of one call. */
  function Code(b: Byte, special: bool, interactive: bool): int {
    var c := b as int + if special then FLAG else 0;
    if !interactive && c == 13 then c + FLAG else c
  }

  predicate AllSafe(cfg: Config, s: State, data: Bytes, special: bool, interactive: bool)
    decreases |data|
  {
    data == [] ||
    var c := Code(data[0], special, interactive);
    Safe(cfg, s, c) && AllSafe(cfg, Key(cfg, s, c), data[1..], special, interactive)
  }

  function Keys(cfg: Config, s: State, data: Bytes, special: bool, interactive: bool): State
    requires AllSafe(cfg, s, data, special, interactive)
    decreases |data|
  {
    if data == [] then s else Keys(cfg, Key(cfg, s, Code(data[0], special, interactive)), data[1..], special,
        interactive)
  }

  // ---------------------------------------------------------------- the program

  class Ldisc {
    const cfg: Config
    var buf: Bytes
    var quotenext: bool
    var out: Bytes
    var sent: seq<Action>
    ghost var begin: nat

    ghost function View(): State
      reads this
    {
      State(buf, quotenext, out, sent, begin)
    }

    constructor (cfg: Config)
      ensures this.cfg == cfg && View() == Start(cfg)
    {
      this.cfg := cfg;
      buf, quotenext, out, sent, begin := [], false, [], [], cfg.origin;
    }

    method BsbOut(n: nat)
      modifies this`out
      ensures out == old(out) + Bsb(n)
    {
      ghost var start := out;
      var left := n;
      assert out == start + Bsb(0);
      while left > 0
        invariant 0 <= left <= n && out == start + Bsb(n - left)
      {
        out := out + [8, 32, 8];
        left := left - 1;
        assert Bsb(n - left) == Bsb(n - left - 1) + [8, 32, 8];
      }
    }

    method Pwrite(c: Byte)
      modifies this`out
      ensures out == old(out) + Shown(cfg.utf, c)
    {
      if 32 <= c <= 126 || (!cfg.utf && c >= 0xA0) || (cfg.utf && c >= 0x80) {
        out := out + [c];
      } else if c < 128 {
        out := out + [94, if c == 127 then 63 else c as int + 0x40];
      } else {
        out := out + [60, HexDigit(c / 16), HexDigit(c % 16), 62];
      }
    }

    method Erase()
      requires buf != []
      modifies this`buf, this`out
      ensures View() == EraseOne(cfg, old(View())) && buf == old(buf)[..|old(buf)| - 1]
    {
      if cfg.echo {
        BsbOut(Plen(cfg.utf, buf[|buf| - 1]));
      }
      buf := buf[..|buf| - 1];
    }

    method Backspace()
      requires buf != [] && HasStart(cfg.utf, buf)
      modifies this`buf, this`out
      ensures View() == EraseTo(cfg, old(View()), LastChar(cfg.utf, old(buf)))
    {
      hide EraseOne, HasStart;
      ghost var s, k := View(), LastChar(cfg.utf, buf);
      var removed := buf[|buf| - 1];
      Erase();
      while !CharStart(cfg.utf, removed)
        invariant k <= |buf| < |s.buf| && buf == s.buf[..|buf|] && removed == s.buf[|buf|]
        invariant EraseTo(cfg, View(), k) == EraseTo(cfg, s, k)
        decreases |buf|
      {
        removed := buf[|buf| - 1];
        Erase();
      }
    }

    method DeleteWord()
      requires buf != []
      modifies this`buf, this`out
      ensures View() == EraseTo(cfg, old(View()), LastWord(old(buf)))
    {
      hide EraseOne, Plen, Bsb, IsSpace;
      ghost var s, k := View(), LastWord(buf);
      while |buf| > 0
        invariant k <= |buf| <= |s.buf| && buf == s.buf[..|buf|]
        invariant buf != [] ==> LastWord(buf) == k
        invariant EraseTo(cfg, View(), k) == EraseTo(cfg, s, k)
      {
        var removed := buf[|buf| - 1];
        ghost var n := |buf| - 1;
        assert buf[..n][..n] == buf[..n];
        Erase();
        if |buf| > 0 && IsSpace(buf[|buf| - 1]) && !IsSpace(removed) {
          break;
        }
      }
    }

    method EraseAll()
      modifies this`buf, this`out
      ensures View() == EraseTo(cfg, old(View()), 0)
    {
      ghost var s := View();
      while |buf| > 0
        invariant EraseTo(cfg, View(), 0) == EraseTo(cfg, s, 0)
        decreases |buf|
      {
        Erase();
      }
    }

    method RedrawLine()
      modifies this`out, this`begin
      ensures View() == Redraw(cfg, old(View()))
    {
      if cfg.echo {
        out := out + [94, 82, 13, 10];
        begin := 0;
        ghost var start := out;
        var i := 0;
        assert out == start + ShownAll(cfg.utf, buf[..0]);
        while i < |buf|
          invariant 0 <= i <= |buf| && out == start + ShownAll(cfg.utf, buf[..i]) && begin == 0
        {
          assert buf[..i + 1][..i] == buf[..i];
          ghost var before := out;
          Pwrite(buf[i]);
          Assoc(start, ShownAll(cfg.utf, buf[..i]), Shown(cfg.utf, buf[i]));
          i := i + 1;
        }
        assert buf[..|buf|] == buf;
      }
    }

    method InsertChar(c: Byte)
      modifies this`buf, this`out, this`quotenext
      ensures View() == Insert(cfg, old(View()), c)
    {
      buf := buf + [c];
      if cfg.echo {
        Pwrite(c);
      }
      quotenext := false;
    }

    method FinishLine()
      modifies this`buf, this`out, this`sent, this`begin
      ensures View() == SendLine(cfg, old(View()))
    {
      ghost var start := sent;
      if |buf| > 0 {
        sent := sent + [Send(buf)];
      } else {
        assert sent == sent + [];
      }
      if cfg.protocol == Raw {
        sent := sent + [Send([13, 10])];
      } else if cfg.protocol == Telnet && cfg.telnetNewline {
        sent := sent + [Do(EndOfLine)];
      } else {
        sent := sent + [Send([13])];
      }
      if cfg.echo {
        out := out + [13, 10];
      }
      buf, begin := [], 0;
    }

    method Kill(c: Byte)
      requires c in {21, 3, 28, 26}
      modifies this`buf, this`out, this`quotenext, this`sent
      ensures View() == KillLine(cfg, old(View()), c)
    {
      hide Insert, EraseTo;
      EraseAll();
      sent := sent + [Do(EraseLine)];
      if !cfg.telnetKeyboard {
        InsertChar(c);
        return;
      }
      ghost var before := sent;
      if c == 3 {
        sent := sent + [Do(InterruptProcess)];
      }
      if c == 26 {
        sent := sent + [Do(Suspend)];
      }
      if c == 28 {
        sent := sent + [Do(Abort)];
      }
      assert sent == before + SpecialOf(c);
    }

    method PressKey(c: int)
      requires 0 <= c < 0x200 && Safe(cfg, View(), c)
      modifies this
      ensures View() == Key(cfg, old(View()), c)
    {
      hide Insert, EraseTo, KillLine, Redraw, SendLine, EraseOne, LastChar, LastWord;
      if quotenext {
        InsertChar(c % 256);
      } else if c == FLAG + 8 || c == FLAG + 127 {
        if |buf| > 0 {
          Backspace();
        }
      } else if c == 23 {
        if |buf| > 0 {
          DeleteWord();
        }
      } else if c == 21 || c == 3 || c == 28 || c == 26 {
        Kill(c);
      } else if c == 18 {
        RedrawLine();
      } else if c == 22 {
        quotenext := true;
      } else if c == 4 {
        if |buf| == 0 {
          sent := sent + [Do(EndOfFile)];
        } else {
          sent := sent + [Send(buf)];
          begin := begin + Width(cfg.utf, buf);
          buf := [];
        }
      } else if c == 10 && cfg.protocol == Raw && |buf| > 0 && buf[|buf| - 1] == 13 {
        Erase();
        FinishLine();
      } else if c == FLAG + 13 {
        FinishLine();
      } else {
        InsertChar(c % 256);
      }
    }

    /** The keys of one call, or a special string of the keyboard's. */
    method LdiscSend(data: Bytes, special: bool, interactive: bool)
      requires AllSafe(cfg, View(), data, special, interactive)
      modifies this
      ensures View() == Keys(cfg, old(View()), data, special, interactive)
    {
      hide Key;
      ghost var s := View();
      var i := 0;
      assert data[0..] == data;
      while i < |data|
        invariant 0 <= i <= |data| && AllSafe(cfg, View(), data[i..], special, interactive)
        invariant Keys(cfg, View(), data[i..], special, interactive) == Keys(cfg, s, data, special, interactive)
      {
        assert data[i..][0] == data[i] && data[i..][1..] == data[i + 1..];
        var c := data[i] as int + if special then FLAG else 0;
        if !interactive && c == 13 {
          c := c + FLAG;
        }
        PressKey(c);
        i := i + 1;
      }
    }
  }

  // ---------------------------------------------------------------- what every key keeps

  /** The cursor stands where the line began plus the columns of what is in the buffer. */
  ghost predicate Aligned(cfg: Config, s: State) {
    cfg.echo ==> Columns(cfg.utf, cfg.origin, s.out) == s.begin + Width(cfg.utf, s.buf)
  }

  /** Erasing a byte takes the cursor back by its columns, and never left of the line's begin. */
  lemma EraseKeeps(cfg: Config, s: State)
    requires Aligned(cfg, s) && s.buf != []
    ensures Aligned(cfg, EraseOne(cfg, s))
    ensures var more := Bsb(Plen(cfg.utf, s.buf[|s.buf| - 1]));
      cfg.echo ==> forall k :: 0 <= k <= |more| ==> Columns(cfg.utf, cfg.origin, s.out + more[..k]) >= s.begin
  {
    if cfg.echo {
      var n := Plen(cfg.utf, s.buf[|s.buf| - 1]);
      var at := Columns(cfg.utf, cfg.origin, s.out);
      hide Columns, Plen, Bsb;
      BsbColumns(cfg.utf, at, n);
      ColumnsAppend(cfg.utf, cfg.origin, s.out, Bsb(n));
      forall k | 0 <= k <= |Bsb(n)|
        ensures Columns(cfg.utf, cfg.origin, s.out + Bsb(n)[..k]) >= s.begin
      {
        BsbNeverFurther(cfg.utf, at, n, k);
        ColumnsAppend(cfg.utf, cfg.origin, s.out, Bsb(n)[..k]);
      }
    }
  }

  lemma {:induction false} EraseToKeeps(cfg: Config, s: State, n: nat)
    requires Aligned(cfg, s) && n <= |s.buf|
    ensures var t := EraseTo(cfg, s, n);
      Aligned(cfg, t) && t.buf == s.buf[..n] && t.begin == s.begin && t.sent == s.sent && t.quotenext == s.quotenext
    decreases |s.buf|
  {
    hide Aligned, Bsb, Plen;
    if n < |s.buf| {
      EraseKeeps(cfg, s);
      EraseToKeeps(cfg, EraseOne(cfg, s), n);
      assert s.buf[..|s.buf| - 1][..n] == s.buf[..n];
    } else {
      assert s.buf[..n] == s.buf;
    }
  }

  lemma InsertKeeps(cfg: Config, s: State, c: Byte)
    requires Aligned(cfg, s)
    ensures Aligned(cfg, Insert(cfg, s, c))
  {
    hide Columns, Plen, Shown;
    assert (s.buf + [c])[..|s.buf|] == s.buf;
    ColumnsAppend(cfg.utf, cfg.origin, s.out, Shown(cfg.utf, c));
    ShownColumns(cfg.utf, Columns(cfg.utf, cfg.origin, s.out), c);
  }

  lemma NewLine(utf: bool, col: nat)
    ensures Columns(utf, col, [13, 10]) == 0 && Columns(utf, col, [94, 82, 13, 10]) == 0
  {
    ColumnsOne(utf, col, 13);
    ColumnsAppend(utf, col, [13], [10]);
    ColumnsOne(utf, 0, 10);
    assert [13] + [10] == [13, 10];
    ColumnsOne(utf, col, 94);
    ColumnsAppend(utf, col, [94], [82, 13, 10]);
    ColumnsThree(utf, Column(utf, col, 94), 82, 13, 10);
    assert [94] + [82, 13, 10] == [94, 82, 13, 10];
  }

  lemma SendKeeps(cfg: Config, s: State)
    ensures Aligned(cfg, SendLine(cfg, s))
  {
    hide Columns;
    ColumnsAppend(cfg.utf, cfg.origin, s.out, [13, 10]);
    NewLine(cfg.utf, Columns(cfg.utf, cfg.origin, s.out));
  }

  lemma RedrawKeeps(cfg: Config, s: State)
    ensures Aligned(cfg, s) ==> Aligned(cfg, Redraw(cfg, s))
  {
    hide Columns, ShownAll;
    var head: Bytes := [94, 82, 13, 10];
    ColumnsAppend(cfg.utf, cfg.origin, s.out, head);
    NewLine(cfg.utf, Columns(cfg.utf, cfg.origin, s.out));
    ColumnsAppend(cfg.utf, cfg.origin, s.out + head, ShownAll(cfg.utf, s.buf));
    ShownAllColumns(cfg.utf, 0, s.buf);
  }

  /** Every key keeps the cursor behind the buffer. */
  lemma KeyKeeps(cfg: Config, s: State, c: int)
    requires 0 <= c < 0x200 && Safe(cfg, s, c) && Aligned(cfg, s)
    ensures Aligned(cfg, Key(cfg, s, c))
  {
    hide Aligned, Insert, EraseTo, SendLine, Redraw, EraseOne, Width;
    InsertKeeps(cfg, s, c % 256);
    if c in {21, 3, 28, 26} { EraseToKeeps(cfg, s, 0); KillKeeps(cfg, s, c); }
    else if IsBackspace(c) { if s.buf != [] && !s.quotenext { EraseToKeeps(cfg, s, LastChar(cfg.utf, s.buf)); } }
    else if c == 23 { if s.buf != [] { EraseToKeeps(cfg, s, LastWord(s.buf)); } }
    RedrawKeeps(cfg, s);
    SendKeeps(cfg, s);
    QuietKeeps(cfg, s);
    if s.buf != [] { SendKeeps(cfg, EraseOne(cfg, s)); }
  }

  lemma KillKeeps(cfg: Config, s: State, c: Byte)
    requires Aligned(cfg, s)
    ensures Aligned(cfg, KillLine(cfg, s, c))
  {
    hide EraseTo, Insert, Columns, Width;
    EraseToKeeps(cfg, s, 0);
    var s1 := EraseTo(cfg, s, 0);
    InsertKeeps(cfg, s1.(sent := s1.sent + [Do(EraseLine)]), c);
  }

  lemma QuietKeeps(cfg: Config, s: State)
    requires Aligned(cfg, s)
    ensures Aligned(cfg, s.(quotenext := true)) && Aligned(cfg, SendOrEof(cfg, s))
  {
    hide Columns;
  }

  /** Any keys, from the start or from any such state. */
  lemma {:induction false} KeysKeep(cfg: Config, s: State, data: Bytes, special: bool, interactive: bool)
    requires Aligned(cfg, s) && AllSafe(cfg, s, data, special, interactive)
    ensures Aligned(cfg, Keys(cfg, s, data, special, interactive))
    decreases |data|
  {
    hide Aligned, Key;
    if data != [] {
      var c := Code(data[0], special, interactive);
      KeyKeeps(cfg, s, c);
      KeysKeep(cfg, Key(cfg, s, c), data[1..], special, interactive);
    }
  }

  function Start(cfg: Config): State {
    State([], false, [], [], cfg.origin)
  }

  lemma StartsAligned(cfg: Config)
    ensures Aligned(cfg, Start(cfg))
  {
  }

  // ---------------------------------------------------------------- character boundaries

  /** A buffer that does not begin inside a character. */
  predicate Whole(utf: bool, buf: Bytes) {
    buf == [] || CharStart(utf, buf[0])
  }

  /** Keys keep the buffer from beginning inside a character, and so every backspace safe, if no
      follow-up byte is typed at the start of a line; a backspace removes one whole character. */
  lemma WholeKeeps(cfg: Config, s: State, c: int)
    requires 0 <= c < 0x200 && Whole(cfg.utf, s.buf) && (cfg.utf && Follows(c % 256) ==> s.buf != [])
    ensures Safe(cfg, s, c) && Whole(cfg.utf, Key(cfg, s, c).buf)
    ensures IsBackspace(c) && !s.quotenext && s.buf != [] ==>
      && Key(cfg, s, c).buf <= s.buf
      && var gone := s.buf[|Key(cfg, s, c).buf|..];
      gone != [] && CharStart(cfg.utf, gone[0]) && forall i :: 0 < i < |gone| ==> !CharStart(cfg.utf, gone[i])
  {
    hide EraseTo, LastWord, Width, ShownAll, Shown;
    ErasesTo(cfg, s, 0);
    if s.buf != [] {
      assert HasStart(cfg.utf, s.buf) by { assert CharStart(cfg.utf, s.buf[0]); }
      ErasesTo(cfg, s, LastChar(cfg.utf, s.buf));
      ErasesTo(cfg, s, LastWord(s.buf));
    }
  }

  lemma {:induction false} ErasesTo(cfg: Config, s: State, n: nat)
    requires n <= |s.buf|
    ensures var t := EraseTo(cfg, s, n); t.buf == s.buf[..n] && t.quotenext == s.quotenext && t.sent == s.sent
    decreases |s.buf|
  {
    if n < |s.buf| {
      ErasesTo(cfg, EraseOne(cfg, s), n);
      assert s.buf[..|s.buf| - 1][..n] == s.buf[..n];
    } else {
      assert s.buf[..n] == s.buf;
    }
  }

  /** The keys that clear the line leave it empty if and only if telnet specials are on. With
      them off such a key stands in the new line itself, and of the specials only the first, which
      tells the other side to erase its line, is sent. */
  lemma KillLineIff(cfg: Config, s: State, c: Byte)
    requires c in {21, 3, 28, 26} && !s.quotenext
    ensures var t := Key(cfg, s, c);
      && !t.quotenext && (t.buf == [] <==> cfg.telnetKeyboard) && (!cfg.telnetKeyboard ==> t.buf == [c])
      && t.sent == s.sent + [Do(EraseLine)] +
           (if !cfg.telnetKeyboard || c == 21 then []
            else [Do(if c == 3 then InterruptProcess else if c == 26 then Suspend else Abort)])
  {
    hide EraseTo, Shown;
    ErasesTo(cfg, s, 0);
  }

  /** What is sent after a letter, the key that deletes a line, and the return key. */
  lemma KillInserts(cfg: Config)
    requires !cfg.telnetKeyboard && cfg.protocol == Other
    ensures AllSafe(cfg, Start(cfg), [97, 21, 13], false, false)
    ensures Keys(cfg, Start(cfg), [97, 21, 13], false, false).sent == [Do(EraseLine), Send([21]), Send([13])]
  {
    var data: Bytes := [97, 21, 13];
    assert data[1..] == [21, 13] && data[1..][1..] == [13] && [13][1..] == [];
    var s := Key(cfg, Start(cfg), 97);
    assert s == Insert(cfg, Start(cfg), 97);
    KillLineIff(cfg, s, 21);
    var t := Key(cfg, s, 21);
    assert t.sent == [Do(EraseLine)] && t.buf == [21];
    hide KillLine, Echo;
    assert Key(cfg, t, FLAG + 13).sent == [Do(EraseLine), Send([21]), Send([13])];
  }

  /** A buffer of follow-up bytes alone is the one case in which a backspace finds no end. */
  lemma UnsafeIff(cfg: Config, s: State, c: int)
    ensures !Safe(cfg, s, c) <==>
      IsBackspace(c) && !s.quotenext && s.buf != [] && cfg.utf && forall i :: 0 <= i < |s.buf| ==> Follows(s.buf[i])
  {
    if !HasStart(cfg.utf, s.buf) && s.buf != [] {
      forall i | 0 <= i < |s.buf|
        ensures cfg.utf && Follows(s.buf[i])
      {
        assert !CharStart(cfg.utf, s.buf[i]);
      }
      assert Follows(s.buf[0]);
    } else if s.buf != [] {
      var i :| 0 <= i < |s.buf| && CharStart(cfg.utf, s.buf[i]);
      assert !cfg.utf || !Follows(s.buf[i]);
    }
  }

  /** No follow-up byte is typed while the buffer is empty. */
  predicate NoStray(cfg: Config, s: State, data: Bytes, special: bool, interactive: bool)
    decreases |data|
  {
    data == [] ||
    var c := Code(data[0], special, interactive);
    && !(cfg.utf && Follows(c % 256) && s.buf == [])
    && (Safe(cfg, s, c) ==> NoStray(cfg, Key(cfg, s, c), data[1..], special, interactive))
  }

  /** Then every backspace of a whole call finds where to stop, the buffer never begins inside a
      character, and the cursor stays behind the buffer. */
  lemma {:induction false} WholeKeysKeep(cfg: Config, s: State, data: Bytes, special: bool, interactive: bool)
    requires Whole(cfg.utf, s.buf) && Aligned(cfg, s) && NoStray(cfg, s, data, special, interactive)
    ensures AllSafe(cfg, s, data, special, interactive)
    ensures var t := Keys(cfg, s, data, special, interactive); Whole(cfg.utf, t.buf) && Aligned(cfg, t)
    decreases |data|
  {
    hide Aligned, Key, Whole;
    if data != [] {
      var c := Code(data[0], special, interactive);
      WholeKeeps(cfg, s, c);
      KeyKeeps(cfg, s, c);
      WholeKeysKeep(cfg, Key(cfg, s, c), data[1..], special, interactive);
    }
  }

  /** From the beginning of a session. */
  lemma FromTheStart(cfg: Config, data: Bytes, special: bool, interactive: bool)
    requires NoStray(cfg, Start(cfg), data, special, interactive)
    ensures AllSafe(cfg, Start(cfg), data, special, interactive)
    ensures var t := Keys(cfg, Start(cfg), data, special, interactive); Whole(cfg.utf, t.buf) && Aligned(cfg, t)
  {
    StartsAligned(cfg);
    WholeKeysKeep(cfg, Start(cfg), data, special, interactive);
  }

  /** Otherwise not: a follow-up byte at the start of a line, and then the backspace key. */
  lemma StrayUnsafe(cfg: Config)
    requires cfg.utf
    ensures AllSafe(cfg, Start(cfg), [0x80], false, true)
    ensures !AllSafe(cfg, Keys(cfg, Start(cfg), [0x80], false, true), [8], true, true)
  {
    var first: Bytes := [0x80];
    assert first[1..] == [];
    var s := Insert(cfg, Start(cfg), 0x80);
    assert Keys(cfg, Start(cfg), first, false, true) == s;
    assert s.buf == [0x80] && Follows(0x80);
    UnsafeIff(cfg, s, FLAG + 8);
  }
}
