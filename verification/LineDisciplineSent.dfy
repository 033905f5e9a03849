/**
 What the keys come to for the other side and for the eye: the text typed is sent whole, with the
 end of line of its protocol, and is shown as it is typed.
 */
module LineDisciplineSent {
  import opened Marshal
  import opened LineDiscipline

  // ---------------------------------------------------------------- what arrives

  /** What the back end is given, one byte or one special at a time. */
  datatype Item = Octet(b: Byte) | Sign(special: Special)

  function Octets(data: Bytes): (r: seq<Item>)
    ensures |r| == |data| && forall i :: 0 <= i < |data| ==> r[i] == Octet(data[i])
  {
    seq(|data|, i requires 0 <= i < |data| => Octet(data[i]))
  }

  function Arrives(a: Action): seq<Item> {
    match a
    case Send(data) => Octets(data)
    case Do(special) => [Sign(special)]
  }

  function ArrivesAll(sent: seq<Action>): seq<Item> {
    if sent == [] then [] else ArrivesAll(sent[..|sent| - 1]) + Arrives(sent[|sent| - 1])
  }

  /** What a line ends with: both bytes for a raw connection, the special of telnet if newlines are
      to be sent so, else the return alone. */
  function EndOf(cfg: Config): seq<Item> {
    match cfg.protocol
    case Raw => [Octet(13), Octet(10)]
    case Telnet => if cfg.telnetNewline then [Sign(EndOfLine)] else [Octet(13)]
    case Other => [Octet(13)]
  }

  /** A key that stands for itself; the return key and the keys for editing do not. */
  predicate Ordinary(b: Byte) {
    b !in {3, 4, 10, 13, 18, 21, 22, 23, 26, 28}
  }

  /** Text, returns and control-D. */
  predicate Typing(data: Bytes) {
    forall b :: b in data ==> Ordinary(b) || b in {4, 13}
  }

  /** What should arrive for one key, knowing whether a line has been begun. */
  function ExpectedOne(cfg: Config, b: Byte, begun: bool): seq<Item> {
    if b == 13 then EndOf(cfg) else if b != 4 then [Octet(b)] else if begun then [] else [Sign(EndOfFile)]
  }

  function Expected(cfg: Config, data: Bytes, begun: bool): seq<Item> {
    if data == [] then []
    else ExpectedOne(cfg, data[0], begun) + Expected(cfg, data[1..], data[0] !in {4, 13})
  }

  lemma OctetsMore(a: Bytes, b: Byte)
    ensures Octets(a + [b]) == Octets(a) + [Octet(b)]
  {
  }

  lemma ArrivesOne(sent: seq<Action>, a: Action)
    ensures ArrivesAll(sent + [a]) == ArrivesAll(sent) + Arrives(a)
  {
    assert (sent + [a])[..|sent|] == sent;
  }

  /** What has arrived, and what is still in the buffer. */
  function Passed(s: State): seq<Item> {
    ArrivesAll(s.sent) + Octets(s.buf)
  }

  lemma OrdinaryPasses(cfg: Config, s: State, b: Byte)
    requires !s.quotenext && Ordinary(b)
    ensures Safe(cfg, s, b)
    ensures var t := Key(cfg, s, b);
      !t.quotenext && t.buf == s.buf + [b] && t.sent == s.sent && Passed(t) == Passed(s) + [Octet(b)]
  {
    hide ArrivesAll, Shown;
    OctetsMore(s.buf, b);
    assert b as int % 256 == b;
  }

  lemma ReturnPasses(cfg: Config, s: State)
    requires !s.quotenext
    ensures Safe(cfg, s, FLAG + 13)
    ensures var t := Key(cfg, s, FLAG + 13); !t.quotenext && t.buf == [] && Passed(t) == Passed(s) + EndOf(cfg)
  {
    hide ArrivesAll;
    var line := s.sent + if s.buf != [] then [Send(s.buf)] else [];
    if s.buf != [] { ArrivesOne(s.sent, Send(s.buf)); } else { assert line == s.sent; }
    assert Octets([13, 10]) == [Octet(13), Octet(10)] && Octets([13]) == [Octet(13)];
    var t := Key(cfg, s, FLAG + 13);
    assert t.sent == line + [t.sent[|line|]];
    ArrivesOne(line, t.sent[|line|]);
    assert Octets([]) == [];
  }

  lemma ControlDPasses(cfg: Config, s: State)
    requires !s.quotenext
    ensures Safe(cfg, s, 4)
    ensures var t := Key(cfg, s, 4);
      !t.quotenext && t.buf == [] && Passed(t) == Passed(s) + if s.buf != [] then [] else [Sign(EndOfFile)]
  {
    hide ArrivesAll;
    assert Octets([]) == [];
    if s.buf != [] { ArrivesOne(s.sent, Send(s.buf)); } else { ArrivesOne(s.sent, Do(EndOfFile)); }
  }

  lemma KeyPasses(cfg: Config, s: State, b: Byte)
    requires !s.quotenext && (Ordinary(b) || b in {4, 13})
    ensures var c := Code(b, false, false);
      && Safe(cfg, s, c)
      && var t := Key(cfg, s, c);
      && !t.quotenext && (t.buf != [] <==> b !in {4, 13})
      && Passed(t) == Passed(s) + ExpectedOne(cfg, b, s.buf != [])
  {
    hide Key, Safe, Passed, EndOf;
    if b == 13 { ReturnPasses(cfg, s); }
    else if b == 4 { ControlDPasses(cfg, s); }
    else { OrdinaryPasses(cfg, s, b); }
  }

  /** For any text, returns and control-Ds, under every protocol: nothing that was typed is lost, added
      or put out of order. What has arrived and what is in the buffer are what there was before, and
      then the keys, each return being the end of a line and each control-D nothing, or an end of file
      where no line has been begun. */
  lemma {:induction false} NothingLost(cfg: Config, s: State, data: Bytes)
    requires !s.quotenext && Typing(data)
    ensures AllSafe(cfg, s, data, false, false)
    ensures var t := Keys(cfg, s, data, false, false);
      !t.quotenext && Passed(t) == Passed(s) + Expected(cfg, data, s.buf != [])
    decreases |data|
  {
    hide Key, Safe, Passed, ExpectedOne, Ordinary;
    if data == [] {
      assert Passed(s) + [] == Passed(s);
    } else {
      var b := data[0];
      KeyPasses(cfg, s, b);
      NothingLost(cfg, Key(cfg, s, Code(b, false, false)), data[1..]);
    }
  }

  lemma {:induction false} TextStays(cfg: Config, s: State, text: Bytes, interactive: bool)
    requires !s.quotenext && forall b :: b in text ==> Ordinary(b)
    ensures AllSafe(cfg, s, text, false, interactive)
    ensures var t := Keys(cfg, s, text, false, interactive); !t.quotenext && t.buf == s.buf + text && t.sent == s.sent
    decreases |text|
  {
    hide Key, Safe;
    if text != [] {
      OrdinaryPasses(cfg, s, text[0]);
      TextStays(cfg, Key(cfg, s, text[0]), text[1..], interactive);
    }
  }

  /** A line, and what ends it: the return key sends it with the end of line, also when it is empty;
      control-D sends it alone, or an end of file if it is empty. */
  lemma LineSent(cfg: Config, s: State, text: Bytes, interactive: bool)
    requires !s.quotenext && s.buf == [] && forall b :: b in text ==> Ordinary(b)
    ensures AllSafe(cfg, s, text, false, interactive)
    ensures var t := Keys(cfg, s, text, false, interactive);
      var end := if cfg.protocol == Raw then Send([13, 10])
                 else if cfg.protocol == Telnet && cfg.telnetNewline then Do(EndOfLine) else Send([13]);
      && Safe(cfg, t, FLAG + 13) && Safe(cfg, t, 4)
      && Key(cfg, t, FLAG + 13).sent == s.sent + (if text != [] then [Send(text)] else []) + [end]
      && Key(cfg, t, 4).sent == s.sent + [if text != [] then Send(text) else Do(EndOfFile)]
      && Key(cfg, t, FLAG + 13).buf == [] && Key(cfg, t, 4).buf == []
  {
    TextStays(cfg, s, text, interactive);
    assert s.buf + text == text;
  }

  /** On a raw connection a return and a line feed in the text end a line as the return key does;
      elsewhere, or without the return, a line feed is text. */
  lemma LineFeedSent(cfg: Config, s: State, text: Bytes)
    requires !s.quotenext && s.buf == [] && forall b :: b in text ==> Ordinary(b)
    ensures AllSafe(cfg, s, text + [13, 10], false, true)
    ensures var t := Keys(cfg, s, text + [13, 10], false, true);
      if cfg.protocol == Raw
      then t.buf == [] && t.sent == s.sent + (if text != [] then [Send(text)] else []) + [Send([13, 10])]
      else t.buf == text + [13, 10] && t.sent == s.sent
  {
    hide Shown;
    TextStays(cfg, s, text, true);
    var t := Keys(cfg, s, text, false, true);
    assert t.buf == text;
    KeysJoin(cfg, s, text, [13, 10], false, true);
    var u := Key(cfg, t, 13);
    assert u.buf == text + [13];
    assert [13, 10][1..] == [10] && [10][1..] == [];
    assert (text + [13])[..|text|] == text;
    assert AllSafe(cfg, t, [13, 10], false, true) && Keys(cfg, t, [13, 10], false, true) == Key(cfg, u, 10);
  }

  lemma {:induction false} KeysJoin(cfg: Config, s: State, a: Bytes, b: Bytes, special: bool, interactive: bool)
    requires AllSafe(cfg, s, a, special, interactive)
    ensures var t := Keys(cfg, s, a, special, interactive);
      AllSafe(cfg, s, a + b, special, interactive) <==> AllSafe(cfg, t, b, special, interactive)
    ensures var t := Keys(cfg, s, a, special, interactive);
      AllSafe(cfg, t, b, special, interactive) ==>
        Keys(cfg, s, a + b, special, interactive) == Keys(cfg, t, b, special, interactive)
    decreases |a|
  {
    hide Key, Safe;
    if a == [] {
      assert a + b == b;
    } else {
      assert (a + b)[1..] == a[1..] + b;
      KeysJoin(cfg, Key(cfg, s, Code(a[0], special, interactive)), a[1..], b, special, interactive);
    }
  }

  /** Every key only adds to what was sent. An end of file is added exactly when control-D meets an
      empty buffer, and nothing at all by a quoted key or one that neither ends nor clears a line. */
  lemma EachKeySends(cfg: Config, s: State, c: int)
    requires 0 <= c < 0x200 && Safe(cfg, s, c)
    ensures var t := Key(cfg, s, c);
      && s.sent <= t.sent
      && (Do(EndOfFile) in t.sent[|s.sent|..] <==> c == 4 && !s.quotenext && s.buf == [])
      && (s.quotenext || c !in {3, 4, 10, 21, 26, 28, FLAG + 13} ==> t.sent == s.sent)
  {
    hide EraseTo, Shown, LastChar, LastWord, Width, ShownAll, HasStart, KillLine;
    if c in {3, 21, 26, 28} && !s.quotenext { KillLineIff(cfg, s, c); }
    if s.buf != [] && IsBackspace(c) && !s.quotenext { ErasesTo(cfg, s, LastChar(cfg.utf, s.buf)); }
    if s.buf != [] && c == 23 { ErasesTo(cfg, s, LastWord(s.buf)); }
  }

  // ---------------------------------------------------------------- editing

  /** A word begins here: after white space, at something else. */
  predicate WordBegins(buf: Bytes, i: int)
    requires 0 < i < |buf|
  {
    (buf[i - 1] == 32 || 9 <= buf[i - 1] <= 13) && !(buf[i] == 32 || 9 <= buf[i] <= 13)
  }

  lemma {:induction false} LastWordIs(buf: Bytes)
    requires buf != []
    ensures var k := LastWord(buf);
      (k > 0 ==> WordBegins(buf, k)) && forall i :: k < i < |buf| ==> !WordBegins(buf, i)
  {
    var n := |buf| - 1;
    if n > 0 && !WordBegins(buf, n) {
      LastWordIs(buf[..n]);
      forall i | LastWord(buf) < i < |buf|
        ensures !WordBegins(buf, i)
      {
        if i < n { assert !WordBegins(buf[..n], i); }
      }
    }
  }

  /** Control-W removes the last word with the white space after it, and no more. */
  lemma WordRemoved(cfg: Config, s: State)
    requires !s.quotenext && s.buf != []
    ensures Safe(cfg, s, 23)
    ensures var k := |Key(cfg, s, 23).buf|;
      && k < |s.buf| && Key(cfg, s, 23).buf == s.buf[..k] && Key(cfg, s, 23).sent == s.sent
      && (k > 0 ==> WordBegins(s.buf, k)) && forall i :: k < i < |s.buf| ==> !WordBegins(s.buf, i)
  {
    hide EraseTo, LastWord;
    LastWordIs(s.buf);
    ErasesTo(cfg, s, LastWord(s.buf));
  }

  /** A quoted key stands for itself, whatever it does otherwise. */
  lemma QuotedStays(cfg: Config, s: State, b: Byte)
    requires !s.quotenext
    ensures Safe(cfg, s, 22) && Safe(cfg, Key(cfg, s, 22), b)
    ensures var t := Key(cfg, Key(cfg, s, 22), b); !t.quotenext && t.buf == s.buf + [b] && t.sent == s.sent
  {
    assert b as int % 256 == b;
  }

  // ---------------------------------------------------------------- what is shown

  lemma {:induction false} NothingErased(cfg: Config, s: State, n: nat)
    requires n <= |s.buf| && !cfg.echo
    ensures EraseTo(cfg, s, n).out == s.out
    decreases |s.buf|
  {
    if n < |s.buf| {
      NothingErased(cfg, EraseOne(cfg, s), n);
    }
  }

  /** Without echo nothing is ever shown. */
  lemma SilentKey(cfg: Config, s: State, c: int)
    requires 0 <= c < 0x200 && Safe(cfg, s, c) && !cfg.echo
    ensures Key(cfg, s, c).out == s.out
  {
    hide EraseTo, LastChar, LastWord, Width, HasStart;
    NothingErased(cfg, s, 0);
    if s.buf != [] && IsBackspace(c) && !s.quotenext { NothingErased(cfg, s, LastChar(cfg.utf, s.buf)); }
    if s.buf != [] && c == 23 { NothingErased(cfg, s, LastWord(s.buf)); }
  }

  lemma {:induction false} Silent(cfg: Config, s: State, data: Bytes, special: bool, interactive: bool)
    requires AllSafe(cfg, s, data, special, interactive) && !cfg.echo
    ensures Keys(cfg, s, data, special, interactive).out == s.out
    decreases |data|
  {
    hide Key, Safe;
    if data != [] {
      var c := Code(data[0], special, interactive);
      SilentKey(cfg, s, c);
      Silent(cfg, Key(cfg, s, c), data[1..], special, interactive);
    }
  }

  predicate Printable(b: Byte) {
    32 <= b <= 126
  }

  /** With echo, printable text is shown as it is typed. */
  lemma {:induction false} TextShown(cfg: Config, s: State, text: Bytes, interactive: bool)
    requires !s.quotenext && cfg.echo && forall b :: b in text ==> Printable(b)
    ensures AllSafe(cfg, s, text, false, interactive) && Keys(cfg, s, text, false, interactive).out == s.out + text
    decreases |text|
  {
    hide Key, Safe;
    if text != [] {
      assert text[0] in text;
      OrdinaryPasses(cfg, s, text[0]);
      PrintableShown(cfg, s, text[0]);
      TextShown(cfg, Key(cfg, s, text[0]), text[1..], interactive);
    }
  }

  lemma PrintableShown(cfg: Config, s: State, b: Byte)
    requires !s.quotenext && cfg.echo && 32 <= b <= 126
    ensures Safe(cfg, s, b) && Key(cfg, s, b).out == s.out + [b]
  {
    assert b as int % 256 == b;
  }

  /** Control characters are shown with a caret and the character 64 places on, the delete
      character with a question mark; other bytes by their two hexadecimal digits. */
  lemma UnprintableShown(utf: bool, c: Byte)
    ensures c < 32 ==> Shown(utf, c) == [94, c + 64]
    ensures Shown(utf, 127) == [94, 63]
    ensures 128 <= c < 160 && !utf ==>
      var digits := "0123456789ABCDEF"; Shown(utf, c) == [60, digits[c / 16] as int, digits[c % 16] as int, 62]
  {
  }

  /** The end of a line is shown as a return and a line feed, under every protocol. */
  lemma LineEndShown(cfg: Config, s: State)
    requires !s.quotenext
    ensures Key(cfg, s, FLAG + 13).out == s.out + if cfg.echo then [13, 10] else []
  {
    assert s.out + [] == s.out;
  }

  lemma PrintableOne(utf: bool, b: Byte)
    requires Printable(b)
    ensures Shown(utf, b) == [b]
  {
  }

  lemma {:induction false} PrintableAll(utf: bool, text: Bytes)
    requires forall b :: b in text ==> Printable(b)
    ensures ShownAll(utf, text) == text
  {
    hide Shown, Printable;
    if text != [] {
      var front, last := text[..|text| - 1], text[|text| - 1];
      PrintableAll(utf, front);
      PrintableOne(utf, last);
    }
  }

  /** Control-R shows itself, a new line and the whole line again, and changes nothing else. */
  lemma RedrawShown(cfg: Config, s: State)
    requires !s.quotenext && cfg.echo && forall b :: b in s.buf ==> Printable(b)
    ensures Safe(cfg, s, 18)
    ensures var t := Key(cfg, s, 18); t.out == s.out + [94, 82, 13, 10] + s.buf && t.buf == s.buf && t.sent == s.sent
  {
    hide ShownAll;
    PrintableAll(cfg.utf, s.buf);
  }

  /** The backspace and delete keys over a printable character show a backspace, a space and a
      backspace. */
  lemma BackspaceShown(cfg: Config, s: State, c: int)
    requires !s.quotenext && cfg.echo && s.buf != [] && Printable(s.buf[|s.buf| - 1]) && c in {0x108, 0x17F}
    ensures Safe(cfg, s, c)
    ensures var t := Key(cfg, s, c); t.out == s.out + [8, 32, 8] && t.buf == s.buf[..|s.buf| - 1] && t.sent == s.sent
  {
    var n := |s.buf| - 1;
    assert CharStart(cfg.utf, s.buf[n]) && HasStart(cfg.utf, s.buf);
    assert LastChar(cfg.utf, s.buf) == n;
    assert Bsb(0) == [] && Bsb(1) == [8, 32, 8];
    var t := EraseOne(cfg, s);
    assert EraseTo(cfg, t, n) == t && EraseTo(cfg, s, n) == t;
  }
}
