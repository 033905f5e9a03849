/**
 Where a control box puts what is new: titles before the other sets of their panel, sets after them,
 and new panels behind those that they are nearest to in the tree of paths.
 */
module DialogPlaces {
  import opened Dialog

  /** The elements of a path hold no slash, and joined by slashes they are the path again. */
  lemma {:induction false} ElementsAre(s: string)
    ensures Join(Split(s)) == s && forall e :: e in Split(s) ==> '/' !in e
  {
    JoinSplit(s);
    if s != "" {
      ElementsAre(s[1..]);
      SplitFirst(s);
      var t := Split(s[1..]);
      forall e | e in Split(s)
        ensures '/' !in e
      {
        if e !in t && s[0] != '/' {
          assert Split(s) == [[s[0]] + t[0]] + t[1..];
          assert forall x :: x in t[1..] ==> x in t;
        }
      }
    }
  }

  /** How many leading elements of a path a set shares. */
  function Near(path: Path, p: Panel): nat {
    Common(Split(path), Split(p.path))
  }

  ghost predicate Occurs(sets: seq<Panel>, path: Path) {
    exists j :: 0 <= j < |sets| && sets[j].path == path
  }

  /** The sets before a place come ever nearer to a path, and after the last of them none is as near. */
  ghost predicate BehindNearest(sets: seq<Panel>, path: Path, at: nat) {
    && at <= |sets|
    && (forall i, j :: 0 <= i < j < at ==> Near(path, sets[i]) <= Near(path, sets[j]))
    && (at < |sets| ==> at > 0 && forall k :: at <= k < |sets| ==> Near(path, sets[k]) < Near(path, sets[at - 1]))
  }

  lemma NewPanelPlace(sets: seq<Panel>, path: Path)
    requires Arranged(sets) && !Occurs(sets, path)
    ensures BehindNearest(sets, path, FindSet(sets, path, true))
  {
    hide Split, Common, Shares;
    var es, p, at := Elements(sets), Split(path), FindSet(sets, path, true);
    NewPlace(sets, path, 0, 0);
    if at < |sets| {
      var t := Common(p, es[at - 1]);
      forall k | at <= k < |sets|
        ensures Common(p, es[k]) < t
      {
        if Common(p, es[k]) >= t {
          SharesIffCommon(p, es[k], t);
          SharesIffCommon(p, es[at - 1], t);
          SharesJoin(p, es[at - 1], es[k], t);
          if at < k { Together(es, at - 1, at, k, t); }
          SharesJoin(es[at - 1], p, es[at], t);
          SharesIffCommon(p, es[at], t);
        }
      }
    }
  }

  lemma SharesJoin(p: seq<string>, a: seq<string>, b: seq<string>, n: nat)
    requires Shares(p, a, n) || Shares(a, p, n)
    requires Shares(p, b, n)
    ensures Shares(a, b, n)
  {
  }

  /** A title goes before all sets of its panel or, if there is none, behind the nearest panels. */
  lemma TitlePlace(sets: seq<Panel>, path: Path) returns (at: nat)
    requires Arranged(sets)
    ensures at <= |sets| && WithTitle(sets, path) == sets[..at] + [Panel(path, None)] + sets[at..]
    ensures forall j :: 0 <= j < at ==> sets[j].path != path
    ensures if Occurs(sets, path) then at < |sets| && sets[at].path == path else BehindNearest(sets, path, at)
  {
    hide Arranged, FindSet, BehindNearest;
    at := FindSet(sets, path, true);
    FindSetFirst(sets, path);
    if !Occurs(sets, path) {
      NewPanelPlace(sets, path);
    }
  }

  lemma NoneAfter(sets: seq<Panel>, path: Path, at: nat, k: nat)
    requires Arranged(sets) && 0 < at <= k < |sets| && sets[at - 1].path == path && sets[at].path != path
    ensures sets[k].path != path
  {
    hide Split, SubtreesTogether;
    var es := Elements(sets);
    if sets[k].path == path && at < k {
      assert es[at - 1] == es[k];
      SplitInjective(sets[at].path, path);
    }
  }

  /** A set that is there already is not added again. Another goes behind all sets of its panel or, if
      there is none, behind the nearest panels. */
  lemma SetPlace(sets: seq<Panel>, path: Path, name: string) returns (at: nat)
    requires Arranged(sets)
    ensures Panel(path, Some(name)) in sets ==> WithSet(sets, path, name) == sets
    ensures Panel(path, Some(name)) !in sets ==>
      && at <= |sets| && WithSet(sets, path, name) == sets[..at] + [Panel(path, Some(name))] + sets[at..]
      && (forall k :: at <= k < |sets| ==> sets[k].path != path)
      && if Occurs(sets, path) then at > 0 && sets[at - 1].path == path else BehindNearest(sets, path, at)
  {
    hide Arranged, FindSet, BehindNearest;
    var first := FindSet(sets, path, true);
    FindSetFirst(sets, path);
    at := SkipOthers(sets, path, name, first);
    if !Occurs(sets, path) {
      NewPanelPlace(sets, path);
      assert at == first;
    } else if at < |sets| && sets[at].path != path {
      forall k | at <= k < |sets|
        ensures sets[k].path != path
      {
        NoneAfter(sets, path, at, k);
      }
    }
    if Panel(path, Some(name)) in sets {
      var i :| 0 <= i < |sets| && sets[i] == Panel(path, Some(name));
      assert sets[i].path == path && i >= first && i >= at;
    }
  }
}
