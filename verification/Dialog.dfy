/**
 The control box of a dialog: a list of control sets ordered so that the sets of one panel,
 and the panels below one another in the tree of paths, stay together.
 */
module Dialog {

  const INT_MAX := 0x7FFF_FFFF

  /** A panel path: no zero character, and short enough for its elements to be counted. */
  type Path = s: string | '\0' !in s && |s| < INT_MAX - 1 witness ""

  datatype Option<T> = None | Some(value: T)

  // ---------------------------------------------------------------- paths and their elements

  /** The elements of a path, which slashes separate; there is always at least one. */
  function Split(s: string): (r: seq<string>)
    ensures 1 <= |r| <= |s| + 1
  {
    if s == "" then [""]
    else if s[0] == '/' then [""] + Split(s[1..])
    else [[s[0]] + Split(s[1..])[0]] + Split(s[1..])[1..]
  }

  function Join(r: seq<string>): string
    requires r != []
  {
    if |r| == 1 then r[0] else r[0] + "/" + Join(r[1..])
  }

  lemma {:induction false} JoinSplit(s: string)
    ensures Join(Split(s)) == s
  {
    if s != "" {
      JoinSplit(s[1..]);
      var t := Split(s[1..]);
      if s[0] != '/' {
        assert Split(s)[1..] == t[1..];
      } else {
        assert Split(s)[1..] == t;
      }
    }
  }

  /** How many leading elements two paths share. */
  function Common(a: seq<string>, b: seq<string>): (n: nat)
    ensures n <= |a| && n <= |b|
  {
    if a == [] || b == [] || a[0] != b[0] then 0 else 1 + Common(a[1..], b[1..])
  }

  /** The number of shared elements is a maximal common prefix. */
  lemma {:induction false} CommonIsPrefix(a: seq<string>, b: seq<string>)
    ensures var n := Common(a, b); a[..n] == b[..n] && (n < |a| && n < |b| ==> a[n] != b[n])
  {
    if a != [] && b != [] && a[0] == b[0] {
      CommonIsPrefix(a[1..], b[1..]);
      var n := Common(a[1..], b[1..]);
      assert a[..n + 1] == [a[0]] + a[1..][..n] && b[..n + 1] == [b[0]] + b[1..][..n];
    }
  }

  lemma {:induction false} CommonAtLeast(a: seq<string>, b: seq<string>, n: nat)
    requires n <= |a| && n <= |b| && a[..n] == b[..n]
    ensures Common(a, b) >= n
  {
    if n > 0 {
      assert a[0] == a[..n][0] && b[0] == b[..n][0];
      assert a[1..][..n - 1] == a[..n][1..] && b[1..][..n - 1] == b[..n][1..];
      CommonAtLeast(a[1..], b[1..], n - 1);
    }
  }

  function PathCompare(p: Path, q: Path): int {
    if p == q then INT_MAX else Common(Split(p), Split(q))
  }

  method PathElements(path: Path) returns (i: int)
    ensures i == |Split(path)|
  {
    i := 1;
    var k := 0;
    assert path[0..] == path;
    while k < |path|
      invariant 0 <= k <= |path| && |Split(path)| == i - 1 + |Split(path[k..])|
    {
      assert path[k..][1..] == path[k + 1..];
      if path[k] == '/' {
        i := i + 1;
      }
      k := k + 1;
    }
  }

  /** The character at a position, or the zero that ends the string. */
  function At(p: Path, k: nat): char {
    if k < |p| then p[k] else '\0'
  }

  lemma NoZero(p: Path, k: nat)
    requires k <= |p|
    ensures At(p, k) == '\0' <==> k == |p|
  {
    assert k < |p| ==> p[k] in p;
  }

  predicate Ends(c: char) {
    c == '/' || c == '\0'
  }

  lemma SplitFirst(s: string)
    requires s != ""
    ensures Split(s)[0] == if s[0] == '/' then "" else [s[0]] + Split(s[1..])[0]
    ensures Split(s)[1..] == if s[0] == '/' then Split(s[1..]) else Split(s[1..])[1..]
  {
  }

  lemma SamePrefix(c: char, a: string, b: string)
    ensures [c] + a == [c] + b <==> a == b
  {
    assert ([c] + a)[1..] == a && ([c] + b)[1..] == b;
  }

  lemma EqualFirst(p: string, q: string)
    requires p != "" && q != "" && p[0] == q[0]
    ensures Common(Split(p), Split(q)) == Common(Split(p[1..]), Split(q[1..])) + if p[0] == '/' then 1 else 0
  {
    hide Split;
    SplitFirst(p);
    SplitFirst(q);
    SamePrefix(p[0], Split(p[1..])[0], Split(q[1..])[0]);
  }

  lemma DifferentFirst(p: Path, q: Path, k: nat)
    requires k <= |p| && k <= |q| && At(p, k) != At(q, k)
    ensures Common(Split(p[k..]), Split(q[k..])) == if Ends(At(p, k)) && Ends(At(q, k)) then 1 else 0
  {
    var s, t := p[k..], q[k..];
    assert k < |p| ==> s[0] == p[k] && p[k] in p;
    assert k < |q| ==> t[0] == q[k] && q[k] in q;
    FirstElement(s);
    FirstElement(t);
    hide Split;
    assert s == "" || t == "" || !Ends(s[0]) || !Ends(t[0]);
  }

  lemma FirstElement(s: string)
    ensures s == "" ==> Split(s) == [""]
    ensures s != "" && s[0] == '/' ==> Split(s)[0] == ""
    ensures s != "" && s[0] != '/' ==> Split(s)[0] != "" && Split(s)[0][0] == s[0]
  {
  }

  /** The number of matching elements at the starts of two paths, or INT_MAX if they are the
      same. */
  method CtrlPathCompare(p1: Path, p2: Path) returns (r: int)
    ensures r == PathCompare(p1, p2)
    ensures r == INT_MAX <==> p1 == p2
  {
    hide Split, Common;
    var i, k := 0, 0;
    assert p1[0..] == p1 && p2[0..] == p2;
    while k < |p1| || k < |p2|
      invariant 0 <= k <= |p1| && k <= |p2| && p1[..k] == p2[..k]
      invariant Common(Split(p1), Split(p2)) == i + Common(Split(p1[k..]), Split(p2[k..]))
      decreases |p1| - k
    {
      NoZero(p1, k);
      NoZero(p2, k);
      if Ends(At(p1, k)) && Ends(At(p2, k)) {
        i := i + 1;
      }
      if At(p1, k) != At(p2, k) {
        DifferentFirst(p1, p2, k);
        return i;
      }
      EqualFirst(p1[k..], p2[k..]);
      assert p1[k..][1..] == p1[k + 1..] && p2[k..][1..] == p2[k + 1..];
      k := k + 1;
    }
    assert p1 == p1[..k] && p2 == p2[..k];
    r := INT_MAX;
  }

  // ---------------------------------------------------------------- finding a place

  /** A control set, identified by its panel and its name; a panel title has no name. */
  datatype Panel = Panel(path: Path, name: Option<string>)

  function FindFrom(sets: seq<Panel>, path: Path, start: bool, i: nat, last: int): (r: nat)
    requires i <= |sets|
    ensures i <= r <= |sets|
    decreases |sets| - i
  {
    if i == |sets| then i
    else
      var thisone := PathCompare(path, sets[i].path);
      if (start && thisone == INT_MAX) || thisone < last then i else FindFrom(sets, path, start, i + 1, thisone)
  }

  function FindSet(sets: seq<Panel>, path: Path, start: bool): (r: nat)
    ensures r <= |sets|
  {
    FindFrom(sets, path, start, 0, 0)
  }

  function FindPath(sets: seq<Panel>, path: Path, index: int): (r: int)
    ensures -1 <= r < |sets|
  {
    var at := if index < 0 then FindSet(sets, path, true) else index + 1;
    if at < |sets| && sets[at].path == path then at else -1
  }

  /** The first set at or after a position that is not a differently named one of the path. */
  function SkipOthers(sets: seq<Panel>, path: Path, name: string, i: nat): (r: nat)
    requires i <= |sets|
    ensures i <= r <= |sets|
    ensures forall j :: i <= j < r ==> sets[j].path == path && sets[j].name != Some(name)
    ensures r < |sets| ==> sets[r].path != path || sets[r].name == Some(name)
    decreases |sets| - i
  {
    if i < |sets| && sets[i].path == path && sets[i].name != Some(name) then SkipOthers(sets, path, name, i + 1) else i
  }

  function WithTitle(sets: seq<Panel>, path: Path): seq<Panel> {
    InsertAt(sets, FindSet(sets, path, true), Panel(path, None))
  }

  function WithSet(sets: seq<Panel>, path: Path, name: string): seq<Panel> {
    var at := SkipOthers(sets, path, name, FindSet(sets, path, true));
    if at < |sets| && sets[at].path == path then sets else InsertAt(sets, at, Panel(path, Some(name)))
  }

  function InsertAt<T>(s: seq<T>, at: nat, x: T): seq<T>
    requires at <= |s|
  {
    s[..at] + [x] + s[at..]
  }

  class ControlSet {
    const pathname: Path
    const boxname: Option<string>
    const boxtitle: Option<string>
    var ncolumns: int

    constructor (pathname: Path, boxname: Option<string>, boxtitle: Option<string>, ncolumns: int)
      ensures this.pathname == pathname && this.boxname == boxname && this.boxtitle == boxtitle &&
          this.ncolumns == ncolumns
    {
      this.pathname, this.boxname, this.boxtitle, this.ncolumns := pathname, boxname, boxtitle, ncolumns;
    }
  }

  function PanelOf(s: ControlSet): Panel {
    Panel(s.pathname, s.boxname)
  }

  function PanelsOf(sets: seq<ControlSet>): (r: seq<Panel>)
    ensures |r| == |sets| && forall i :: 0 <= i < |r| ==> r[i] == PanelOf(sets[i])
  {
    seq(|sets|, i requires 0 <= i < |sets| => PanelOf(sets[i]))
  }

  class ControlBox {
    var ctrlsets: seq<ControlSet>

    function Panels(): (r: seq<Panel>)
      reads this
    {
      PanelsOf(ctrlsets)
    }

    constructor ()
      ensures ctrlsets == []
    {
      ctrlsets := [];
    }

    /** The index of the first control set of a path; if there is none, where to insert it. */
    method CtrlFindSet(path: Path, start: bool) returns (r: nat)
      ensures r == FindSet(Panels(), path, start)
    {
      var last := 0;
      var i := 0;
      while i < |ctrlsets|
        invariant 0 <= i <= |ctrlsets| && FindSet(Panels(), path, start) == FindFrom(Panels(), path, start, i, last)
      {
        var thisone := CtrlPathCompare(path, ctrlsets[i].pathname);
        if (start && thisone == INT_MAX) || thisone < last {
          return i;
        }
        last := thisone;
        i := i + 1;
      }
      r := |ctrlsets|;
    }

    /** The next control set of a path after an index, or the first after -1; -1 if none. */
    method CtrlFindPath(path: Path, index: int) returns (r: int)
      ensures r == FindPath(Panels(), path, index)
    {
      var at;
      if index < 0 {
        at := CtrlFindSet(path, true);
      } else {
        at := index + 1;
      }
      if at < |ctrlsets| && path == ctrlsets[at].pathname {
        r := at;
      } else {
        r := -1;
      }
    }

    method CtrlSetTitle(path: Path, title: string) returns (s: ControlSet)
      modifies this
      ensures fresh(s) && s.boxname == None && s.boxtitle == Some(title) && s.ncolumns == 0
      ensures ctrlsets == InsertAt(old(ctrlsets), FindSet(old(Panels()), path, true), s)
      ensures Panels() == WithTitle(old(Panels()), path)
    {
      var index := CtrlFindSet(path, true);
      s := new ControlSet(path, None, Some(title), 0);
      ctrlsets := ctrlsets[..index] + [s] + ctrlsets[index..];
    }

    method CtrlGetSet(path: Path, name: string, boxtitle: Option<string>) returns (s: ControlSet)
      modifies this
      ensures s in ctrlsets && PanelOf(s) == Panel(path, Some(name))
      ensures s in old(ctrlsets) ==> ctrlsets == old(ctrlsets)
      ensures s !in old(ctrlsets) ==> fresh(s) && s.boxtitle == boxtitle && s.ncolumns == 1
      ensures Panels() == WithSet(old(Panels()), path, name)
    {
      hide FindSet;
      var index := CtrlFindSet(path, true);
      while index < |ctrlsets| && ctrlsets[index].pathname == path
        invariant index <= |ctrlsets| && ctrlsets == old(ctrlsets)
        invariant SkipOthers(Panels(), path, name, FindSet(Panels(), path, true)) ==
            SkipOthers(Panels(), path, name, index)
      {
        if ctrlsets[index].boxname.Some? && ctrlsets[index].boxname.value == name {
          return ctrlsets[index];
        }
        index := index + 1;
      }
      s := new ControlSet(path, Some(name), boxtitle, 1);
      ctrlsets := ctrlsets[..index] + [s] + ctrlsets[index..];
      assert ctrlsets[index] == s;
    }
  }

  // ---------------------------------------------------------------- the order is kept

  /** The first n elements of two paths agree. */
  predicate Shares(a: seq<string>, b: seq<string>, n: nat) {
    n <= |a| && n <= |b| && a[..n] == b[..n]
  }

  /** Every set between two sets that share a leading part of their paths shares it too. */
  ghost predicate SubtreesTogether(es: seq<seq<string>>) {
    forall i, j, k, n: nat :: 0 <= i < j < k < |es| && Shares(es[i], es[k], n) ==> Shares(es[i], es[j], n)
  }

  /** Every set between two sets of the same path is of that path. */
  ghost predicate EqualsTogether(es: seq<seq<string>>) {
    forall i, j, k :: 0 <= i < j < k < |es| && es[i] == es[k] ==> es[j] == es[i]
  }

  function Elements(sets: seq<Panel>): (r: seq<seq<string>>)
    ensures |r| == |sets| && forall i :: 0 <= i < |r| ==> r[i] == Split(sets[i].path)
  {
    seq(|sets|, i requires 0 <= i < |sets| => Split(sets[i].path))
  }

  ghost predicate Arranged(sets: seq<Panel>) {
    SubtreesTogether(Elements(sets)) && EqualsTogether(Elements(sets))
  }

  lemma SplitInjective(p: string, q: string)
    requires Split(p) == Split(q)
    ensures p == q
  {
    JoinSplit(p);
    JoinSplit(q);
  }

  lemma SharesIffCommon(a: seq<string>, b: seq<string>, n: nat)
    ensures Shares(a, b, n) <==> n <= Common(a, b)
  {
    CommonIsPrefix(a, b);
    var c := Common(a, b);
    if n <= c {
      assert a[..n] == a[..c][..n] && b[..n] == b[..c][..n];
    } else if Shares(a, b, n) {
      CommonAtLeast(a, b, n);
    }
  }

  /** A path that is already there is found first. */
  lemma FindsFirst(sets: seq<Panel>, path: Path, m: nat, i: nat, last: int)
    requires Arranged(sets) && i <= m < |sets| && sets[m].path == path
    requires forall j :: 0 <= j < m ==> sets[j].path != path
    requires last == if i == 0 then 0 else PathCompare(path, sets[i - 1].path)
    ensures FindFrom(sets, path, true, i, last) == m
    decreases m - i
  {
    hide Split, Common;
    if i < m {
      var es := Elements(sets);
      if i > 0 {
        var c := Common(es[m], es[i - 1]);
        SharesIffCommon(es[m], es[i - 1], c);
        assert Shares(es[i - 1], es[m], c);
        assert Shares(es[i - 1], es[i], c);
        SharesIffCommon(es[m], es[i], c);
      }
      CommonShort(path, sets[i].path);
      FindsFirst(sets, path, m, i + 1, PathCompare(path, sets[i].path));
    }
  }

  lemma CommonShort(p: Path, q: Path)
    ensures Common(Split(p), Split(q)) < INT_MAX
  {
  }

  /** Finding a path returns its first set if it has one, in any arranged list. */
  lemma FindSetFirst(sets: seq<Panel>, path: Path)
    requires Arranged(sets)
    ensures var at := FindSet(sets, path, true);
      && (forall j :: 0 <= j < at ==> sets[j].path != path)
      && ((exists j :: 0 <= j < |sets| && sets[j].path == path) ==> at < |sets| && sets[at].path == path)
  {
    if j :| 0 <= j < |sets| && sets[j].path == path {
      var m := FirstOf(sets, path, j);
      FindsFirst(sets, path, m, 0, 0);
    }
  }

  lemma FirstOf(sets: seq<Panel>, path: Path, j: nat) returns (m: nat)
    requires j < |sets| && sets[j].path == path
    ensures m <= j && sets[m].path == path && forall i :: 0 <= i < m ==> sets[i].path != path
  {
    if i :| 0 <= i < j && sets[i].path == path {
      m := FirstOf(sets, path, i);
    } else {
      m := j;
    }
  }

  ghost predicate Rising(es: seq<seq<string>>, p: seq<string>, n: nat) {
    n <= |es| && forall i, j :: 0 <= i < j < n ==> Common(p, es[i]) <= Common(p, es[j])
  }

  lemma RisingMore(es: seq<seq<string>>, p: seq<string>, i: nat)
    requires Rising(es, p, i) && i < |es| && (i > 0 ==> Common(p, es[i - 1]) <= Common(p, es[i]))
    ensures Rising(es, p, i + 1)
  {
    hide Common;
    forall j, k | 0 <= j < k < i + 1
      ensures Common(p, es[j]) <= Common(p, es[k])
    {
      if k == i && j < i - 1 { assert Common(p, es[j]) <= Common(p, es[i - 1]); }
    }
  }

  /** The list up to the place found for a new path: the number of shared elements never falls
      before it, and falls at it. */
  lemma NewPlace(sets: seq<Panel>, path: Path, i: nat, last: int)
    requires i <= |sets| && forall j :: 0 <= j < |sets| ==> sets[j].path != path
    requires last == if i == 0 then 0 else PathCompare(path, sets[i - 1].path)
    requires Rising(Elements(sets), Split(path), i)
    ensures var at := FindFrom(sets, path, true, i, last);
      && Rising(Elements(sets), Split(path), at)
      && (at < |sets| ==> at > 0 && Common(Split(path), Elements(sets)[at]) < Common(Split(path),
          Elements(sets)[at - 1]))
    decreases |sets| - i
  {
    hide Split, Common, Rising;
    if i < |sets| {
      CommonShort(path, sets[i].path);
      if PathCompare(path, sets[i].path) >= last {
        RisingMore(Elements(sets), Split(path), i);
        NewPlace(sets, path, i + 1, PathCompare(path, sets[i].path));
      }
    }
  }

  lemma SharesLess(a: seq<string>, b: seq<string>, m: nat, n: nat)
    requires Shares(a, b, n) && m <= n
    ensures Shares(a, b, m)
  {
    assert a[..m] == a[..n][..m] && b[..m] == b[..n][..m];
  }

  /** A new path between two sets: what they share, it shares too. */
  lemma NewBetween(es: seq<seq<string>>, p: seq<string>, at: nat, i: nat, k: nat, n: nat)
    requires SubtreesTogether(es) && i < at <= k < |es| && Common(p, es[at]) < Common(p, es[at - 1])
    requires Shares(es[i], es[k], n)
    ensures Shares(es[i], p, n)
  {
    hide Common;
    var a, b, s, t := es[at - 1], es[at], Common(p, es[at]), Common(p, es[at - 1]);
    assert i < at - 1 ==> Shares(es[i], a, n);
    assert at < k ==> Shares(es[i], b, n);
    assert Shares(a, b, n);
    SharesIffCommon(p, a, t);
    SharesIffCommon(p, b, s + 1);
    SharesLess(p, a, s + 1, t);
    if n > s {
      SharesLess(a, b, s + 1, n);
      assert false;
    }
    SharesIffCommon(p, b, n);
  }

  /** A new path before a set: the sets in between share what those two share. */
  lemma NewFirst(es: seq<seq<string>>, p: seq<string>, at: nat, j: nat, k: nat, n: nat)
    requires SubtreesTogether(es) && 0 < at <= j < k < |es| && Common(p, es[at]) < Common(p, es[at - 1])
    requires Shares(p, es[k], n)
    ensures Shares(p, es[j], n)
  {
    hide Common;
    var a, b, s, t := es[at - 1], es[at], Common(p, es[at]), Common(p, es[at - 1]);
    SharesIffCommon(p, a, t);
    SharesIffCommon(p, b, t);
    if n > t {
      SharesLess(p, es[k], t, n);
      Together(es, at - 1, at, k, t);
      assert false;
    }
    SharesLess(p, a, n, t);
    assert Shares(a, es[k], n) && Shares(a, es[j], n);
  }

  lemma NewLast(es: seq<seq<string>>, p: seq<string>, at: nat, i: nat, j: nat, n: nat)
    requires Rising(es, p, at) && i < j < at && Shares(es[i], p, n)
    ensures Shares(es[i], es[j], n)
  {
    hide Common;
    SharesIffCommon(p, es[i], n);
    SharesIffCommon(p, es[j], n);
  }

  /** Inserting a new path where the number of shared elements falls keeps subtrees together. */
  lemma InsertNewSubtrees(es: seq<seq<string>>, p: seq<string>, at: nat)
    requires SubtreesTogether(es) && at <= |es| && Rising(es, p, at)
    requires at < |es| ==> at > 0 && Common(p, es[at]) < Common(p, es[at - 1])
    ensures SubtreesTogether(InsertAt(es, at, p))
  {
    hide Common, Shares, SubtreesTogether, Rising;
    var r := InsertAt(es, at, p);
    forall i, j, k, n: nat | 0 <= i < j < k < |r| && Shares(r[i], r[k], n)
      ensures Shares(r[i], r[j], n)
    {
      if i == at { NewFirst(es, p, at, j - 1, k - 1, n); }
      else if k == at { NewLast(es, p, at, i, j, n); }
      else if j == at { NewBetween(es, p, at, i, k - 1, n); }
      else { Together(es, Old(at, i), Old(at, j), Old(at, k), n); }
    }
    MakeTogether(r);
  }

  lemma InsertNewEquals(es: seq<seq<string>>, p: seq<string>, at: nat)
    requires EqualsTogether(es) && p !in es && at <= |es|
    requires at < |es| ==> at > 0 && es[at] != es[at - 1]
    ensures EqualsTogether(InsertAt(es, at, p))
  {
    var r := InsertAt(es, at, p);
    forall i, j, k | 0 <= i < j < k < |r| && r[i] == r[k]
      ensures r[j] == r[i]
    {
      assert i != at && k != at;
      if j == at {
        assert false;
      } else {
        assert es[Old(at, j)] == es[Old(at, i)];
      }
    }
  }

  function Old(at: nat, i: nat): nat
    requires i != at
  {
    if i < at then i else i - 1
  }

  lemma Together(es: seq<seq<string>>, i: nat, j: nat, k: nat, n: nat)
    requires SubtreesTogether(es) && i < j < k < |es| && Shares(es[i], es[k], n)
    ensures Shares(es[i], es[j], n)
  {
  }

  lemma MakeTogether(es: seq<seq<string>>)
    requires forall i, j, k, n: nat :: 0 <= i < j < k < |es| && Shares(es[i], es[k], n) ==> Shares(es[i], es[j], n)
    ensures SubtreesTogether(es)
  {
  }

  /** So does inserting a path next to a set of the same path. */
  lemma DuplicateSubtrees(es: seq<seq<string>>, at: nat)
    requires SubtreesTogether(es) && at < |es|
    ensures SubtreesTogether(InsertAt(es, at, es[at]))
  {
    hide Shares, SubtreesTogether;
    var r := InsertAt(es, at, es[at]);
    forall i, j, k, n: nat | 0 <= i < j < k < |r| && Shares(r[i], r[k], n)
      ensures Shares(r[i], r[j], n)
    {
      var i', j', k' := Merge(at, i), Merge(at, j), Merge(at, k);
      if i' < j' < k' { Together(es, i', j', k', n); }
      else { SharesItself(r[i], r[k], n); }
    }
    MakeTogether(r);
  }

  lemma DuplicateEquals(es: seq<seq<string>>, at: nat)
    requires EqualsTogether(es) && at < |es|
    ensures EqualsTogether(InsertAt(es, at, es[at]))
    ensures InsertAt(es, at, es[at]) == InsertAt(es, at + 1, es[at])
  {
    var r := InsertAt(es, at, es[at]);
    forall i, j, k | 0 <= i < j < k < |r| && r[i] == r[k]
      ensures r[j] == r[i]
    {
      assert es[Merge(at, i)] == es[Merge(at, k)];
    }
  }

  function Merge(at: nat, i: nat): nat {
    if i <= at then i else i - 1
  }

  lemma SharesItself(a: seq<string>, b: seq<string>, n: nat)
    requires Shares(a, b, n)
    ensures Shares(a, a, n)
  {
  }

  lemma ElementsInsert(sets: seq<Panel>, at: nat, x: Panel)
    requires at <= |sets|
    ensures Elements(InsertAt(sets, at, x)) == InsertAt(Elements(sets), at, Split(x.path))
  {
  }

  /** Inserting at the place found, or next to a set of the same path, keeps the order. */
  lemma InsertKeeps(sets: seq<Panel>, at: nat, x: Panel)
    requires Arranged(sets) && at <= |sets|
    requires at == FindSet(sets, x.path, true) || (at > 0 && sets[at - 1].path == x.path)
    ensures Arranged(InsertAt(sets, at, x))
  {
    hide SubtreesTogether, EqualsTogether, FindFrom, Split;
    ElementsInsert(sets, at, x);
    var es := Elements(sets);
    FindSetFirst(sets, x.path);
    if at > 0 && sets[at - 1].path == x.path {
      DuplicateSubtrees(es, at - 1);
      DuplicateEquals(es, at - 1);
    } else if at < |sets| && sets[at].path == x.path {
      DuplicateSubtrees(es, at);
      DuplicateEquals(es, at);
    } else {
      NewPlace(sets, x.path, 0, 0);
      forall i | 0 <= i < |es|
        ensures es[i] != Split(x.path)
      {
        if es[i] == Split(x.path) { SplitInjective(sets[i].path, x.path); }
      }
      InsertNewSubtrees(es, Split(x.path), at);
      InsertNewEquals(es, Split(x.path), at);
    }
  }

  datatype Call = SetTitle(path: Path) | GetSet(path: Path, name: string)

  function AfterCall(sets: seq<Panel>, c: Call): seq<Panel> {
    match c
    case SetTitle(path) => WithTitle(sets, path)
    case GetSet(path, name) => WithSet(sets, path, name)
  }

  function AfterCalls(calls: seq<Call>): seq<Panel> {
    if calls == [] then [] else AfterCall(AfterCalls(calls[..|calls| - 1]), calls[|calls| - 1])
  }

  lemma CallKeeps(sets: seq<Panel>, c: Call)
    requires Arranged(sets)
    ensures Arranged(AfterCall(sets, c))
  {
    hide Arranged, FindSet;
    var at := FindSet(sets, c.path, true);
    if c.SetTitle? {
      InsertKeeps(sets, at, Panel(c.path, None));
    } else {
      InsertKeeps(sets, SkipOthers(sets, c.path, c.name, at), Panel(c.path, Some(c.name)));
    }
  }

  /** After any calls in any order, subtrees and equal paths are contiguous. */
  lemma {:induction false} AlwaysArranged(calls: seq<Call>)
    ensures Arranged(AfterCalls(calls))
  {
    hide AfterCall;
    if calls != [] {
      AlwaysArranged(calls[..|calls| - 1]);
      CallKeeps(AfterCalls(calls[..|calls| - 1]), calls[|calls| - 1]);
    }
  }

  // ---------------------------------------------------------------- walking through one path

  /** The indices that repeated searching visits, starting after an index. */
  function Visited(sets: seq<Panel>, path: Path, index: int): seq<int>
    requires -1 <= index < |sets|
    decreases |sets| - index
  {
    var next := FindPath(sets, path, index);
    if next > index then [next] + Visited(sets, path, next) else []
  }

  /** From a set of the path, the search goes on to the next one, and stops after the last. */
  lemma VisitsRest(sets: seq<Panel>, path: Path, index: nat)
    requires Arranged(sets) && index < |sets| && sets[index].path == path
    ensures forall i :: i in Visited(sets, path, index) <==> index < i < |sets| && sets[i].path == path
    decreases |sets| - index
  {
    hide Split, FindSet, SubtreesTogether;
    if index + 1 < |sets| && sets[index + 1].path == path {
      VisitsRest(sets, path, index + 1);
    } else {
      forall i | index < i < |sets|
        ensures sets[i].path != path
      {
        if sets[i].path == path {
          var es := Elements(sets);
          assert es[index] == es[i];
          if i > index + 1 { SplitInjective(sets[index + 1].path, path); }
          assert false;
        }
      }
    }
  }

  /** Searching from -1 until nothing is found visits exactly the sets of the path. */
  lemma VisitsAll(sets: seq<Panel>, path: Path)
    requires Arranged(sets)
    ensures forall i :: i in Visited(sets, path, -1) <==> 0 <= i < |sets| && sets[i].path == path
  {
    hide FindSet, Arranged;
    FindSetFirst(sets, path);
    var at := FindPath(sets, path, -1);
    if at >= 0 { VisitsRest(sets, path, at); }
  }
}
