/**
 The configuration store: entries kept in key order, with a serialised form that can be read
 back, and two ways of listing the string subkeys of an option.
 */
module Conf {
  import opened Marshal

  // ---------------------------------------------------------------- entries and their order

  datatype SubkeyType = NoSubkey | IntSubkey | StrSubkey

  datatype ValueType = BoolType | IntType | StrType | FilenameType | FontType

  /** The two tables indexed by the number of a configuration option. */
  datatype Schema = Schema(subkeys: seq<SubkeyType>, values: seq<ValueType>) {
    predicate Valid() {
      |subkeys| == |values| < TWO_32 - 1
    }
  }

  datatype Secondary = NoKey | IntKey(i: int) | StrKey(s: Bytes)

  datatype Value = BoolVal(b: bool) | IntVal(i: int) | StrVal(s: Bytes) | FileVal(path: Bytes) | FontVal(name: Bytes)

  datatype Key = Key(primary: nat, secondary: Secondary)

  datatype Entry = Entry(key: Key, value: Value)

  datatype Option<T> = None | Some(value: T)

  predicate IsInt(i: int) {
    -0x8000_0000 <= i < 0x8000_0000
  }

  predicate TypedKey(schema: Schema, k: Key)
    requires schema.Valid()
  {
    k.primary < |schema.subkeys| &&
    match schema.subkeys[k.primary]
    case NoSubkey => k.secondary == NoKey
    case IntSubkey => k.secondary.IntKey? && IsInt(k.secondary.i)
    case StrSubkey => k.secondary.StrKey? && 0 !in k.secondary.s
  }

  predicate Typed(schema: Schema, e: Entry)
    requires schema.Valid()
  {
    TypedKey(schema, e.key) &&
    match schema.values[e.key.primary]
    case BoolType => e.value.BoolVal?
    case IntType => e.value.IntVal? && IsInt(e.value.i)
    case StrType => e.value.StrVal? && 0 !in e.value.s
    case FilenameType => e.value.FileVal? && 0 !in e.value.path
    case FontType => e.value.FontVal? && 0 !in e.value.name
  }

  /** The sign of the comparison of two zero-terminated strings, as unsigned bytes. */
  function StrCmp(s: Bytes, t: Bytes): (r: int)
    ensures r == 0 <==> s == t
  {
    if s == [] then (if t == [] then 0 else -1)
    else if t == [] then 1
    else if s[0] < t[0] then -1
    else if s[0] > t[0] then 1
    else
      assert s == [s[0]] + s[1..] && t == [t[0]] + t[1..];
      StrCmp(s[1..], t[1..])
  }

  function ConfCmp(a: Key, b: Key): int {
    if a.primary < b.primary then -1
    else if a.primary > b.primary then 1
    else
      match (a.secondary, b.secondary)
      case (IntKey(i), IntKey(j)) => if i < j then -1 else if i > j then 1 else 0
      case (StrKey(s), StrKey(t)) => StrCmp(s, t)
      case _ => 0
  }

  lemma {:induction false} StrCmpOrder(s: Bytes, t: Bytes, u: Bytes)
    ensures StrCmp(s, t) < 0 <==> StrCmp(t, s) > 0
    ensures StrCmp(s, t) <= 0 && StrCmp(t, u) <= 0 ==> StrCmp(s, u) <= 0
    ensures StrCmp(s, t) < 0 && StrCmp(t, u) <= 0 ==> StrCmp(s, u) < 0
    ensures StrCmp(s, t) <= 0 && StrCmp(t, u) < 0 ==> StrCmp(s, u) < 0
  {
    if s != [] && t != [] {
      StrCmpOrder(s[1..], t[1..], if u == [] then [] else u[1..]);
    }
  }

  /** On keys of the right types the comparison is a strict total order. */
  lemma ConfCmpOrder(schema: Schema, a: Key, b: Key, c: Key)
    requires schema.Valid() && TypedKey(schema, a) && TypedKey(schema, b) && TypedKey(schema, c)
    ensures ConfCmp(a, b) == 0 <==> a == b
    ensures ConfCmp(a, b) < 0 <==> ConfCmp(b, a) > 0
    ensures ConfCmp(a, b) < 0 && ConfCmp(b, c) <= 0 ==> ConfCmp(a, c) < 0
    ensures ConfCmp(a, b) <= 0 && ConfCmp(b, c) < 0 ==> ConfCmp(a, c) < 0
  {
    if a.secondary.StrKey? && b.secondary.StrKey? {
      StrCmpOrder(a.secondary.s, b.secondary.s, if c.secondary.StrKey? then c.secondary.s else []);
    }
  }

  /** Two names agree in their first bytes; there the first ends or has the smaller byte. */
  predicate DiffersAfter(s: Bytes, t: Bytes, n: int) {
    0 <= n <= |s| && n < |t| && s[..n] == t[..n] && (n == |s| || s[n] < t[n])
  }

  /** The order of names: by the first byte in which they differ, a name before its extensions. */
  ghost predicate Precedes(s: Bytes, t: Bytes) {
    exists n :: DiffersAfter(s, t, n)
  }

  lemma {:induction false} StrCmpIff(s: Bytes, t: Bytes)
    ensures StrCmp(s, t) < 0 <==> Precedes(s, t)
  {
    if s != [] && t != [] && s[0] == t[0] {
      StrCmpIff(s[1..], t[1..]);
      PrecedesRest(s, t);
    } else if StrCmp(s, t) < 0 {
      assert DiffersAfter(s, t, 0);
    }
  }

  lemma PrecedesRest(s: Bytes, t: Bytes)
    requires s != [] && t != [] && s[0] == t[0]
    ensures Precedes(s[1..], t[1..]) <==> Precedes(s, t)
  {
    if Precedes(s[1..], t[1..]) {
      var n :| DiffersAfter(s[1..], t[1..], n);
      assert s[..n + 1] == [s[0]] + s[1..][..n] && t[..n + 1] == [t[0]] + t[1..][..n];
      assert DiffersAfter(s, t, n + 1);
    }
    if Precedes(s, t) {
      var n :| DiffersAfter(s, t, n);
      assert s[1..][..n - 1] == s[..n][1..] && t[1..][..n - 1] == t[..n][1..];
      assert DiffersAfter(s[1..], t[1..], n - 1);
    }
  }

  /** Keys are ordered by the option, then by the subkey: integers by size, names by their bytes. */
  lemma ConfCmpIff(schema: Schema, a: Key, b: Key)
    requires schema.Valid() && TypedKey(schema, a) && TypedKey(schema, b)
    ensures ConfCmp(a, b) < 0 <==>
      || a.primary < b.primary
      || (a.primary == b.primary && a.secondary.IntKey? && a.secondary.i < b.secondary.i)
      || (a.primary == b.primary && a.secondary.StrKey? && Precedes(a.secondary.s, b.secondary.s))
  {
    hide StrCmp, Precedes;
    if a.secondary.StrKey? && b.secondary.StrKey? {
      StrCmpIff(a.secondary.s, b.secondary.s);
    }
  }

  ghost predicate Stored(schema: Schema, es: seq<Entry>) {
    && schema.Valid()
    && (forall e :: e in es ==> Typed(schema, e))
    && forall i, j :: 0 <= i < j < |es| ==> ConfCmp(es[i].key, es[j].key) < 0
  }

  // ---------------------------------------------------------------- the sorted tree

  /** The position of the first entry that is not below a key. */
  function Lower(es: seq<Entry>, k: Key): (n: nat)
    ensures n <= |es| && (n < |es| ==> ConfCmp(es[n].key, k) >= 0)
    ensures forall i :: 0 <= i < n ==> ConfCmp(es[i].key, k) < 0
  {
    if es == [] || ConfCmp(es[0].key, k) >= 0 then 0 else 1 + Lower(es[1..], k)
  }

  /** The position of the first entry that is above a key. */
  function Upper(es: seq<Entry>, k: Key): (n: nat)
    ensures n <= |es| && (n < |es| ==> ConfCmp(es[n].key, k) > 0)
    ensures forall i :: 0 <= i < n ==> ConfCmp(es[i].key, k) <= 0
  {
    if es == [] || ConfCmp(es[0].key, k) > 0 then 0 else 1 + Upper(es[1..], k)
  }

  /** The entries after inserting or replacing one. */
  function Inserted(es: seq<Entry>, e: Entry): seq<Entry> {
    es[..Lower(es, e.key)] + [e] + es[Upper(es, e.key)..]
  }

  function AsMap(es: seq<Entry>): (m: map<Key, Value>) {
    if es == [] then map[] else AsMap(es[..|es| - 1])[es[|es| - 1].key := es[|es| - 1].value]
  }

  class Conf {
    const schema: Schema
    var tree: seq<Entry>

    ghost predicate Valid()
      reads this
    {
      Stored(schema, tree)
    }

    constructor (schema: Schema)
      requires schema.Valid()
      ensures Valid() && this.schema == schema && tree == []
    {
      this.schema, tree := schema, [];
    }

    /** The first entry with a key not below (or, strictly, above) the given one. */
    method FindRelPos(k: Key, strictly: bool) returns (pos: nat)
      ensures pos == if strictly then Upper(tree, k) else Lower(tree, k)
    {
      hide ConfCmp;
      pos := 0;
      assert tree[0..] == tree;
      while pos < |tree| && (if strictly then ConfCmp(tree[pos].key, k) <= 0 else ConfCmp(tree[pos].key, k) < 0)
        invariant 0 <= pos <= |tree|
        invariant strictly ==> Upper(tree, k) == pos + Upper(tree[pos..], k)
        invariant !strictly ==> Lower(tree, k) == pos + Lower(tree[pos..], k)
      {
        assert tree[pos..][1..] == tree[pos + 1..];
        pos := pos + 1;
      }
    }

    /** Adds an entry unless one with an equal key is there; if so, its index is the result. */
    method Add(e: Entry) returns (found: Option<nat>)
      requires Valid() && Typed(schema, e)
      modifies this
      ensures Valid()
      ensures found.Some? ==> tree == old(tree) && found.value < |tree| && tree[found.value].key == e.key
      ensures found.None? ==> (forall x :: x in old(tree) ==> x.key != e.key) && tree == Inserted(old(tree), e)
    {
      SchemaOfStored(schema, tree);
      TypedParts(schema, e);
      hide ConfCmp, Stored, Typed, TypedKey, Lower, Upper;
      var n := FindRelPos(e.key, false);
      Around(schema, tree, e.key);
      if n < |tree| && ConfCmp(tree[n].key, e.key) == 0 {
        return Some(n);
      }
      InsertedStored(schema, tree, e);
      tree := tree[..n] + [e] + tree[n..];
      found := None;
    }

    method Insert(e: Entry)
      requires Valid() && Typed(schema, e)
      modifies this
      ensures Valid() && tree == Inserted(old(tree), e)
    {
      SchemaOfStored(schema, tree);
      hide Stored, Typed, Inserted;
      var oldEntry := Add(e);
      if oldEntry.Some? {
        var n := oldEntry.value;
        RemovedThenInserted(schema, tree, n, e);
        tree := tree[..n] + tree[n + 1..];
        oldEntry := Add(e);
        assert oldEntry.None?;
      }
    }

    // -------------------------------------------------------------- listing string subkeys

    /** The subkey and value that follow a given subkey, or the first ones. */
    method GetStrStrs(primary: nat, subkeyin: Option<Bytes>) returns (r: Option<Entry>)
      requires Valid() && schema.Valid() && IsStrStr(schema, primary)
      ensures r == StrStrs(tree, primary, subkeyin)
    {
      var pos;
      if subkeyin.Some? {
        pos := FindRelPos(Key(primary, StrKey(subkeyin.value)), true);
      } else {
        pos := FindRelPos(Key(primary, StrKey([])), false);
      }
      if pos == |tree| || tree[pos].key.primary != primary {
        return None;
      }
      r := Some(tree[pos]);
    }

    method GetStrNthStrKey(primary: nat, n: nat) returns (r: Option<Bytes>)
      requires Valid() && schema.Valid() && IsStrStr(schema, primary)
      ensures r == NthStrKey(tree, primary, n)
    {
      var index := FindRelPos(Key(primary, StrKey([])), false);
      if index == |tree| || tree[index].key.primary != primary {
        return None;
      }
      if index + n >= |tree| || tree[index + n].key.primary != primary {
        return None;
      }
      assert tree[index + n] in tree;
      r := Some(tree[index + n].key.secondary.s);
    }

    // -------------------------------------------------------------- the serialised form

    method Serialise(bs: StrBuf)
      requires Valid()
      modifies bs
      ensures bs.data == old(bs.data) + Serialised(tree)
    {
      hide EntryBytes, Uint32, Stored;
      ghost var start := bs.data;
      var i := 0;
      assert tree[0..] == tree;
      while i < |tree|
        invariant 0 <= i <= |tree| && bs.data + Serialised(tree[i..]) == start + Serialised(tree)
      {
        ghost var before := bs.data;
        StoredTyped(schema, tree, i);
        PutEntry(bs, schema, tree[i]);
        assert tree[i..][0] == tree[i] && tree[i..][1..] == tree[i + 1..];
        Assoc(before, EntryBytes(tree[i]), Serialised(tree[i + 1..]));
        i := i + 1;
      }
      bs.PutUint32(TERMINATOR);
      assert tree[|tree|..] == [];
    }

    /** Reads entries into this store until the terminator, an unknown option or the end of
        the data. */
    method Deserialise(src: BinarySource) returns (ok: bool)
      requires Valid() && src.Valid()
      modifies this, src
      ensures Valid() && src.Valid() && schema.Valid()
      ensures (ok, tree, src.View()) == TakeConf(schema, old(src.View()), old(tree))
    {
      SchemaOfStored(schema, tree);
      hide TakeUint32, TakeSecondary, TakeValue, Inserted, Stored, Typed;
      while true
        invariant Valid() && src.Valid() && schema.Valid()
        invariant TakeConf(schema, src.View(), tree) == TakeConf(schema, old(src.View()), old(tree))
        decreases |src.View().rest|
      {
        ghost var s, es := src.View(), tree;
        SchemaOfStored(schema, tree);
        TakeUint32Shrinks(s);
        var primary := src.GetUint32();
        if src.err {
          return false;
        }
        if primary == TERMINATOR {
          return true;
        }
        if primary >= |schema.subkeys| {
          return false;
        }
        TakeSecondaryShrinks(schema.subkeys[primary], src.View());
        var secondary := GetSecondary(src, schema.subkeys[primary]);
        TakeValueShrinks(schema.values[primary], src.View());
        var value := GetValue(src, schema.values[primary]);
        if src.err {
          return false;
        }
        var entry := Entry(Key(primary, secondary), value);
        TakenTyped(schema, s, primary);
        Insert(entry);
      }
    }
  }

  lemma StoredTyped(schema: Schema, es: seq<Entry>, i: nat)
    requires Stored(schema, es) && i < |es|
    ensures schema.Valid() && Typed(schema, es[i])
  {
  }

  lemma SchemaOfStored(schema: Schema, es: seq<Entry>)
    requires Stored(schema, es)
    ensures schema.Valid()
  {
  }

  lemma TypedAt(schema: Schema, es: seq<Entry>, i: nat)
    requires Stored(schema, es) && i < |es|
    ensures schema.Valid() && Typed(schema, es[i]) && TypedKey(schema, es[i].key)
  {
  }

  lemma InOrder(schema: Schema, es: seq<Entry>, i: nat, j: nat)
    requires Stored(schema, es) && i < j < |es|
    ensures ConfCmp(es[i].key, es[j].key) < 0
  {
  }

  /** An entry at or after the lower position is above the key, unless it is the key's own. */
  lemma AfterLower(schema: Schema, es: seq<Entry>, k: Key, i: nat)
    requires Stored(schema, es) && schema.Valid() && TypedKey(schema, k) && Lower(es, k) <= i < |es|
    ensures es[i].key == k <==> i == Lower(es, k) && ConfCmp(es[i].key, k) == 0
    ensures es[i].key != k ==> ConfCmp(es[i].key, k) > 0 && ConfCmp(k, es[i].key) < 0
    ensures es[i].key == k ==> ConfCmp(es[i].key, k) == 0
  {
    hide ConfCmp, Stored, TypedKey, Lower;
    var n := Lower(es, k);
    TypedAt(schema, es, n);
    TypedAt(schema, es, i);
    ConfCmpOrder(schema, k, es[n].key, es[i].key);
    ConfCmpOrder(schema, es[n].key, k, k);
    ConfCmpOrder(schema, es[i].key, k, k);
    if n < i { InOrder(schema, es, n, i); }
  }

  /** Where a key stands among stored entries. */
  lemma Around(schema: Schema, es: seq<Entry>, k: Key)
    requires Stored(schema, es) && schema.Valid() && TypedKey(schema, k)
    ensures var n, m := Lower(es, k), Upper(es, k);
      && (m == if n < |es| && ConfCmp(es[n].key, k) == 0 then n + 1 else n)
      && (n < m ==> es[n].key == k)
      && (forall i :: 0 <= i < n ==> es[i].key != k && ConfCmp(es[i].key, k) < 0)
      && (forall i :: m <= i < |es| ==> es[i].key != k && ConfCmp(k, es[i].key) < 0 && ConfCmp(es[i].key, k) > 0)
  {
    hide ConfCmp, Stored, TypedKey, Lower, Upper;
    var n, m := Lower(es, k), Upper(es, k);
    forall i | 0 <= i < n
      ensures es[i].key != k
    {
      TypedAt(schema, es, i);
      ConfCmpOrder(schema, es[i].key, k, k);
    }
    if n < |es| { AfterLower(schema, es, k, n); }
    if n + 1 < |es| { AfterLower(schema, es, k, n + 1); }
    forall i | n < i < |es|
      ensures es[i].key != k && ConfCmp(k, es[i].key) < 0 && ConfCmp(es[i].key, k) > 0
    {
      AfterLower(schema, es, k, i);
    }
  }

  lemma InsertedStored(schema: Schema, es: seq<Entry>, e: Entry)
    requires Stored(schema, es) && schema.Valid() && Typed(schema, e)
    ensures Stored(schema, Inserted(es, e))
  {
    hide ConfCmp, Typed, TypedKey, Lower, Upper;
    var n, m := Lower(es, e.key), Upper(es, e.key);
    TypedParts(schema, e);
    Around(schema, es, e.key);
    var r := Inserted(es, e);
    forall i, j | 0 <= i < j < |r|
      ensures ConfCmp(r[i].key, r[j].key) < 0
    {
      if i < n && j > n {
        TypedAt(schema, es, i);
        TypedAt(schema, es, j - n - 1 + m);
        ConfCmpOrder(schema, es[i].key, e.key, es[j - n - 1 + m].key);
      }
    }
  }

  lemma TypedParts(schema: Schema, e: Entry)
    requires schema.Valid() && Typed(schema, e)
    ensures TypedKey(schema, e.key)
  {
  }

  lemma {:induction false} LowerIs(es: seq<Entry>, k: Key, n: nat)
    requires n <= |es| && (forall i :: 0 <= i < n ==> ConfCmp(es[i].key, k) < 0)
    requires n < |es| ==> ConfCmp(es[n].key, k) >= 0
    ensures Lower(es, k) == n
  {
    hide ConfCmp;
    if n > 0 {
      LowerIs(es[1..], k, n - 1);
    }
  }

  lemma RemovedStored(schema: Schema, es: seq<Entry>, n: nat)
    requires Stored(schema, es) && n < |es|
    ensures Stored(schema, es[..n] + es[n + 1..])
  {
    hide ConfCmp, Typed;
    var rest := es[..n] + es[n + 1..];
    assert forall i :: 0 <= i < |rest| ==> rest[i] == es[if i < n then i else i + 1];
  }

  lemma {:induction false} UpperIs(es: seq<Entry>, k: Key, n: nat)
    requires n <= |es| && (forall i :: 0 <= i < n ==> ConfCmp(es[i].key, k) <= 0)
    requires n < |es| ==> ConfCmp(es[n].key, k) > 0
    ensures Upper(es, k) == n
  {
    hide ConfCmp;
    if n > 0 {
      UpperIs(es[1..], k, n - 1);
    }
  }

  lemma RemovedPositions(es: seq<Entry>, n: nat, k: Key)
    requires n < |es| && (forall i :: 0 <= i < n ==> ConfCmp(es[i].key, k) < 0)
    requires forall i :: n < i < |es| ==> ConfCmp(es[i].key, k) > 0
    ensures var rest := es[..n] + es[n + 1..]; Lower(rest, k) == n && Upper(rest, k) == n
  {
    hide ConfCmp, Lower, Upper;
    var rest := es[..n] + es[n + 1..];
    LowerIs(rest, k, n);
    UpperIs(rest, k, n);
  }

  lemma RemovedThenInserted(schema: Schema, es: seq<Entry>, n: nat, e: Entry)
    requires Stored(schema, es) && schema.Valid() && Typed(schema, e) && n < |es| && es[n].key == e.key
    ensures var rest := es[..n] + es[n + 1..];
      && Stored(schema, rest) && (forall x :: x in rest ==> x.key != e.key)
      && Inserted(rest, e) == Inserted(es, e)
  {
    hide ConfCmp, Typed, TypedKey, Lower, Upper, Stored;
    TypedParts(schema, e);
    Around(schema, es, e.key);
    RemovedStored(schema, es, n);
    RemovedPositions(es, n, e.key);
    var rest := es[..n] + es[n + 1..];
    assert rest[..n] == es[..n] && rest[n..] == es[n + 1..];
  }

  lemma AsMapOne(es: seq<Entry>, i: nat)
    requires i < |es| && forall j :: i < j < |es| ==> es[j].key != es[i].key
    ensures es[i].key in AsMap(es) && AsMap(es)[es[i].key] == es[i].value
  {
    if i < |es| - 1 {
      var front := es[..|es| - 1];
      assert forall j :: i < j < |front| ==> front[j].key == es[j].key;
      AsMapOne(front, i);
    }
  }

  lemma {:induction false} AsMapKey(es: seq<Entry>, k: Key) returns (i: nat)
    requires k in AsMap(es)
    ensures i < |es| && es[i].key == k && forall j :: i < j < |es| ==> es[j].key != k
  {
    if es[|es| - 1].key == k {
      i := |es| - 1;
    } else {
      i := AsMapKey(es[..|es| - 1], k);
    }
  }

  lemma SameMap(es: seq<Entry>, r: seq<Entry>, e: Entry)
    requires forall i, j :: 0 <= i < j < |es| ==> es[i].key != es[j].key
    requires forall i, j :: 0 <= i < j < |r| ==> r[i].key != r[j].key
    requires forall x :: x in r <==> x == e || (x in es && x.key != e.key)
    ensures AsMap(r) == AsMap(es)[e.key := e.value]
  {
    hide AsMap;
    var m := AsMap(es)[e.key := e.value];
    forall k | k in AsMap(r)
      ensures k in m && m[k] == AsMap(r)[k]
    {
      var i := AsMapKey(r, k);
      AsMapOne(r, i);
      assert r[i] in r;
      if r[i] != e {
        var j :| 0 <= j < |es| && es[j] == r[i];
        AsMapOne(es, j);
      }
    }
    forall k | k in m
      ensures k in AsMap(r)
    {
      var x := e;
      if k != e.key {
        var i := AsMapKey(es, k);
        x := es[i];
      }
      assert x in r;
      var j :| 0 <= j < |r| && r[j] == x;
      AsMapOne(r, j);
    }
  }

  lemma InsertedMembers(schema: Schema, es: seq<Entry>, e: Entry)
    requires Stored(schema, es) && schema.Valid() && Typed(schema, e)
    ensures forall x :: x in Inserted(es, e) <==> x == e || (x in es && x.key != e.key)
  {
    hide AsMap, Stored, Typed, TypedKey, Lower, Upper, ConfCmp;
    TypedParts(schema, e);
    Around(schema, es, e.key);
    var r := Inserted(es, e);
    var n, m := Lower(es, e.key), Upper(es, e.key);
    forall x | x in es && x.key != e.key
      ensures x in r
    {
      var i :| 0 <= i < |es| && es[i] == x;
      if i < n { assert r[i] == x; } else { assert r[i - m + n + 1] == x; }
    }
    assert r[n] == e;
  }

  /** As a map, an insertion sets exactly one key. */
  lemma InsertedMap(schema: Schema, es: seq<Entry>, e: Entry)
    requires Stored(schema, es) && schema.Valid() && Typed(schema, e)
    ensures AsMap(Inserted(es, e)) == AsMap(es)[e.key := e.value]
  {
    hide AsMap, Stored, Typed, Inserted;
    var r := Inserted(es, e);
    InsertedMembers(schema, es, e);
    InsertedStored(schema, es, e);
    StoredDistinct(schema, es);
    StoredDistinct(schema, r);
    SameMap(es, r, e);
  }

  lemma StoredDistinct(schema: Schema, es: seq<Entry>)
    requires Stored(schema, es)
    ensures forall i, j :: 0 <= i < j < |es| ==> es[i].key != es[j].key
  {
    hide ConfCmp, Stored, TypedKey, Typed;
    forall i, j | 0 <= i < j < |es|
      ensures es[i].key != es[j].key
    {
      InOrder(schema, es, i, j);
      TypedAt(schema, es, i);
      ConfCmpOrder(schema, es[i].key, es[i].key, es[i].key);
    }
  }

  // ---------------------------------------------------------------- listing string subkeys

  predicate IsStrStr(schema: Schema, primary: nat)
    requires schema.Valid()
  {
    primary < |schema.subkeys| && schema.subkeys[primary] == StrSubkey && schema.values[primary] == StrType
  }

  function StrStrs(es: seq<Entry>, primary: nat, subkeyin: Option<Bytes>): Option<Entry> {
    var pos := if subkeyin.Some? then Upper(es, Key(primary, StrKey(subkeyin.value)))
               else Lower(es, Key(primary, StrKey([])));
    if pos == |es| || es[pos].key.primary != primary then None else Some(es[pos])
  }

  /** The entry with the n-th subkey of an option. */
  function NthEntry(es: seq<Entry>, primary: nat, n: nat): (r: Option<Entry>) {
    var index := Lower(es, Key(primary, StrKey([])));
    if index + n >= |es| || es[index].key.primary != primary || es[index + n].key.primary != primary then None
    else Some(es[index + n])
  }

  function SubkeyOf(r: Option<Entry>): Option<Bytes> {
    if r.Some? && r.value.key.secondary.StrKey? then Some(r.value.key.secondary.s) else None
  }

  function NthStrKey(es: seq<Entry>, primary: nat, n: nat): (r: Option<Bytes>) {
    SubkeyOf(NthEntry(es, primary, n))
  }

  /** The entries of one option are the run that begins at the position of the empty subkey. */
  lemma OptionIsRun(schema: Schema, es: seq<Entry>, primary: nat, i: nat)
    requires Stored(schema, es) && schema.Valid() && IsStrStr(schema, primary)
    requires i < |es| && es[i].key.primary == primary
    ensures es[i].key.secondary.StrKey?
    ensures Lower(es, Key(primary, StrKey([]))) <= i
    ensures forall j :: Lower(es, Key(primary, StrKey([]))) <= j <= i ==> es[j].key.primary == primary
  {
    hide Lower, StrCmp;
    var k := Key(primary, StrKey([]));
    assert Typed(schema, es[i]);
    assert StrCmp(es[i].key.secondary.s, []) >= 0 by { StrCmpEmpty(es[i].key.secondary.s); }
    forall j | Lower(es, k) <= j <= i
      ensures es[j].key.primary == primary
    {
      if j < i { InOrder(schema, es, j, i); }
      if Lower(es, k) < j { InOrder(schema, es, Lower(es, k), j); }
    }
  }

  lemma StrCmpEmpty(s: Bytes)
    ensures StrCmp(s, []) >= 0
  {
  }

  lemma NthIs(schema: Schema, es: seq<Entry>, primary: nat, n: nat)
    requires Stored(schema, es) && schema.Valid() && IsStrStr(schema, primary)
    ensures var i := Lower(es, Key(primary, StrKey([]))) + n;
      if i < |es| && es[i].key.primary == primary
      then es[i].key.secondary.StrKey? && NthEntry(es, primary, n) == Some(es[i]) &&
          NthStrKey(es, primary, n) == Some(es[i].key.secondary.s)
      else NthEntry(es, primary, n) == None && NthStrKey(es, primary, n) == None
  {
    hide Lower, ConfCmp, Stored;
    var i := Lower(es, Key(primary, StrKey([]))) + n;
    if i < |es| && es[i].key.primary == primary {
      OptionIsRun(schema, es, primary, i);
    }
  }

  /** Both listings agree: starting with no subkey and passing each result back in visits the
      entries in the order of their numbers, and stops where the numbers stop. */
  lemma ListingsAgree(schema: Schema, es: seq<Entry>, primary: nat, n: nat)
    requires Stored(schema, es) && schema.Valid() && IsStrStr(schema, primary)
    ensures StrStrs(es, primary, None) == NthEntry(es, primary, 0)
    ensures NthEntry(es, primary, n).Some? ==>
      && NthStrKey(es, primary, n).Some?
      && StrStrs(es, primary, NthStrKey(es, primary, n)) == NthEntry(es, primary, n + 1)
  {
    hide Lower, Upper, ConfCmp, Stored, NthEntry, NthStrKey, TypedKey;
    NthIs(schema, es, primary, 0);
    NthIs(schema, es, primary, n);
    NthIs(schema, es, primary, n + 1);
    var i := Lower(es, Key(primary, StrKey([]))) + n;
    if NthEntry(es, primary, n).Some? {
      TypedAt(schema, es, i);
      NextUpper(schema, es, i);
    }
  }

  lemma NextUpper(schema: Schema, es: seq<Entry>, i: nat)
    requires Stored(schema, es) && i < |es|
    ensures Upper(es, es[i].key) == i + 1
  {
    hide Lower, Upper, ConfCmp, TypedKey, Stored;
    TypedAt(schema, es, i);
    var k := es[i].key;
    Around(schema, es, k);
    StoredDistinct(schema, es);
    var n := Lower(es, k);
    assert n <= i;
    if n < i { AfterLower(schema, es, k, i); }
  }

  /** The numbering lists every subkey of the option and nothing else. */
  lemma ListingComplete(schema: Schema, es: seq<Entry>, primary: nat, s: Bytes)
    requires Stored(schema, es) && schema.Valid() && IsStrStr(schema, primary)
    ensures Key(primary, StrKey(s)) in AsMap(es) <==> exists n: nat :: NthStrKey(es, primary, n) == Some(s)
  {
    hide Lower, Upper, ConfCmp, Stored, NthStrKey, TypedKey, AsMap;
    var start := Lower(es, Key(primary, StrKey([])));
    if Key(primary, StrKey(s)) in AsMap(es) {
      var i := AsMapKey(es, Key(primary, StrKey(s)));
      OptionIsRun(schema, es, primary, i);
      NthIs(schema, es, primary, i - start);
      assert NthStrKey(es, primary, i - start) == Some(s);
    }
    if n: nat :| NthStrKey(es, primary, n) == Some(s) {
      NthIs(schema, es, primary, n);
      StoredDistinct(schema, es);
      AsMapOne(es, start + n);
    }
  }

  /** The numbers run from zero without gaps, in strictly increasing order of the subkeys. */
  lemma ListingIncreasing(schema: Schema, es: seq<Entry>, primary: nat, m: nat, n: nat)
    requires Stored(schema, es) && schema.Valid() && IsStrStr(schema, primary)
    requires m < n && NthStrKey(es, primary, n).Some?
    ensures NthStrKey(es, primary, m).Some? && StrCmp(NthStrKey(es, primary, m).value, NthStrKey(es, primary,
        n).value) < 0
  {
    hide Lower, Upper, StrCmp, Stored, NthStrKey, TypedKey;
    var start := Lower(es, Key(primary, StrKey([])));
    NthIs(schema, es, primary, n);
    OptionIsRun(schema, es, primary, start + n);
    NthIs(schema, es, primary, m);
    InOrder(schema, es, start + m, start + n);
  }

  // ---------------------------------------------------------------- the serialised form

  const TERMINATOR := 0xFFFF_FFFF

  function SecondaryBytes(k: Secondary): Bytes {
    match k
    case NoKey => []
    case IntKey(i) => Uint32(i)
    case StrKey(s) => Asciz(s)
  }

  function ValueBytes(v: Value): Bytes {
    match v
    case BoolVal(b) => Bool(b)
    case IntVal(i) => Uint32(i)
    case StrVal(s) => Asciz(s)
    case FileVal(path) => Asciz(path)
    case FontVal(name) => Asciz(name)
  }

  function FieldBytes(e: Entry): Bytes {
    SecondaryBytes(e.key.secondary) + ValueBytes(e.value)
  }

  function EntryBytes(e: Entry): Bytes {
    Uint32(e.key.primary) + FieldBytes(e)
  }

  function Serialised(es: seq<Entry>): Bytes {
    if es == [] then Uint32(TERMINATOR) else EntryBytes(es[0]) + Serialised(es[1..])
  }

  /** The bytes of a store: for each entry the number of its option, the subkey if it has one and the
      value, numbers as 32 bits and strings with a zero byte after them; at the end four bytes 255. */
  lemma SerialisedLayout(e: Entry, rest: seq<Entry>)
    ensures var key := match e.key.secondary
        case NoKey => []
        case IntKey(i) => Uint32(i)
        case StrKey(s) => s + [0];
      var value := match e.value
        case BoolVal(b) => if b then [1] else [0]
        case IntVal(i) => Uint32(i)
        case StrVal(s) => s + [0]
        case FileVal(path) => path + [0]
        case FontVal(name) => name + [0];
      Serialised([e] + rest) == Uint32(e.key.primary) + key + value + Serialised(rest)
    ensures Serialised([]) == [255, 255, 255, 255]
  {
    Uint32Digits(255, 255, 255, 255);
    hide Uint32;
    assert ([e] + rest)[1..] == rest;
    Assoc(Uint32(e.key.primary), SecondaryBytes(e.key.secondary), ValueBytes(e.value));
    hide Serialised;
  }

  method PutEntry(bs: StrBuf, schema: Schema, e: Entry)
    requires schema.Valid() && Typed(schema, e)
    modifies bs
    ensures bs.data == old(bs.data) + EntryBytes(e)
  {
    hide Uint32;
    ghost var start := bs.data;
    bs.PutUint32(e.key.primary);
    match schema.subkeys[e.key.primary] {
      case IntSubkey => bs.PutUint32(e.key.secondary.i);
      case StrSubkey => bs.PutAsciz(e.key.secondary.s);
      case NoSubkey =>
    }
    ghost var middle := start + Uint32(e.key.primary);
    assert bs.data == middle + SecondaryBytes(e.key.secondary) by { assert middle + [] == middle; }
    match schema.values[e.key.primary] {
      case BoolType => bs.PutBool(e.value.b);
      case IntType => bs.PutUint32(e.value.i);
      case StrType => bs.PutAsciz(e.value.s);
      case FilenameType => bs.PutAsciz(e.value.path);
      case FontType => bs.PutAsciz(e.value.name);
    }
    Assoc(middle, SecondaryBytes(e.key.secondary), ValueBytes(e.value));
    Assoc(start, Uint32(e.key.primary), FieldBytes(e));
  }

  /** A 32-bit word as a signed number in two's complement. */
  function ToInt(u: int): (i: int)
    requires 0 <= u < TWO_32
    ensures IsInt(i) && i % TWO_32 == u
  {
    if u < 0x8000_0000 then u else u - TWO_32
  }

  function TakeSecondary(t: SubkeyType, s: Source): (Secondary, Source) {
    match t
    case NoSubkey => (NoKey, s)
    case IntSubkey => var (u, s') := TakeUint32(s); (IntKey(ToInt(u)), s')
    case StrSubkey => var (b, s') := TakeAsciz(s); (StrKey(b), s')
  }

  function TakeValue(t: ValueType, s: Source): (Value, Source) {
    match t
    case BoolType => var (b, s') := TakeBool(s); (BoolVal(b), s')
    case IntType => var (u, s') := TakeUint32(s); (IntVal(ToInt(u)), s')
    case StrType => var (b, s') := TakeAsciz(s); (StrVal(b), s')
    case FilenameType => var (b, s') := TakeAsciz(s); (FileVal(b), s')
    case FontType => var (b, s') := TakeAsciz(s); (FontVal(b), s')
  }

  method GetSecondary(src: BinarySource, t: SubkeyType) returns (k: Secondary)
    requires src.Valid()
    modifies src
    ensures src.Valid() && (k, src.View()) == TakeSecondary(t, old(src.View()))
  {
    hide TakeUint32, TakeAsciz;
    match t {
      case NoSubkey => k := NoKey;
      case IntSubkey => var u := src.GetUint32(); k := IntKey(ToInt(u));
      case StrSubkey => var b := src.GetAsciz(); k := StrKey(b);
    }
  }

  method GetValue(src: BinarySource, t: ValueType) returns (v: Value)
    requires src.Valid()
    modifies src
    ensures src.Valid() && (v, src.View()) == TakeValue(t, old(src.View()))
  {
    hide TakeUint32, TakeAsciz, TakeBool;
    match t {
      case BoolType => var b := src.GetBool(); v := BoolVal(b);
      case IntType => var u := src.GetUint32(); v := IntVal(ToInt(u));
      case StrType => var b := src.GetAsciz(); v := StrVal(b);
      case FilenameType => var b := src.GetAsciz(); v := FileVal(b);
      case FontType => var b := src.GetAsciz(); v := FontVal(b);
    }
  }

  lemma TakeUint32Shrinks(s: Source)
    ensures var (u, s') := TakeUint32(s); s'.err || |s'.rest| < |s.rest|
  {
  }

  lemma TakeSecondaryShrinks(t: SubkeyType, s: Source)
    ensures |TakeSecondary(t, s).1.rest| <= |s.rest|
  {
  }

  lemma TakeValueShrinks(t: ValueType, s: Source)
    ensures |TakeValue(t, s).1.rest| <= |s.rest|
  {
  }

  /** Reading entries into a store that already holds some. */
  function TakeConf(schema: Schema, s: Source, es: seq<Entry>): (bool, seq<Entry>, Source)
    requires schema.Valid()
    decreases |s.rest|
  {
    var (primary, s1) := TakeUint32(s);
    TakeUint32Shrinks(s);
    if s1.err then (false, es, s1)
    else if primary == TERMINATOR then (true, es, s1)
    else if primary >= |schema.subkeys| then (false, es, s1)
    else
      var (secondary, s2) := TakeSecondary(schema.subkeys[primary], s1);
      var (value, s3) := TakeValue(schema.values[primary], s2);
      TakeSecondaryShrinks(schema.subkeys[primary], s1);
      TakeValueShrinks(schema.values[primary], s2);
      if s3.err then (false, es, s3)
      else TakeConf(schema, s3, Inserted(es, Entry(Key(primary, secondary), value)))
  }

  lemma NulFree(s: Source)
    ensures 0 !in TakeAsciz(s).0
  {
  }

  /** Whatever is read has the types the tables promise. */
  lemma TakenTyped(schema: Schema, s: Source, primary: nat)
    requires schema.Valid() && primary < |schema.subkeys|
    ensures var (secondary, s2) := TakeSecondary(schema.subkeys[primary], TakeUint32(s).1);
      Typed(schema, Entry(Key(primary, secondary), TakeValue(schema.values[primary], s2).0))
  {
    hide TakeAsciz, TakeUint32;
    var s1 := TakeUint32(s).1;
    NulFree(s1);
    NulFree(TakeSecondary(schema.subkeys[primary], s1).1);
  }

  lemma ToIntInverse(i: int)
    requires IsInt(i)
    ensures ToInt(i % TWO_32) == i
  {
  }

  lemma ReadSecondary(schema: Schema, e: Entry, tail: Bytes)
    requires schema.Valid() && Typed(schema, e)
    ensures TakeSecondary(schema.subkeys[e.key.primary], Source(SecondaryBytes(e.key.secondary) + tail, false))
      == (e.key.secondary, Source(tail, false))
  {
    hide TakeUint32, TakeAsciz, Uint32;
    match e.key.secondary {
      case NoKey => assert [] + tail == tail;
      case IntKey(i) => ReadUint32(i, tail); ToIntInverse(i);
      case StrKey(s) => ReadAsciz(s, tail);
    }
  }

  lemma ReadValue(schema: Schema, e: Entry, tail: Bytes)
    requires schema.Valid() && Typed(schema, e)
    ensures TakeValue(schema.values[e.key.primary], Source(ValueBytes(e.value) + tail, false)) ==
        (e.value, Source(tail, false))
  {
    hide TakeUint32, TakeAsciz, Uint32, TakeByte;
    match e.value {
      case BoolVal(b) => ReadOneByte(if b then 1 else 0, tail);
      case IntVal(i) => ReadUint32(i, tail); ToIntInverse(i);
      case StrVal(s) => ReadAsciz(s, tail);
      case FileVal(s) => ReadAsciz(s, tail);
      case FontVal(s) => ReadAsciz(s, tail);
    }
  }

  lemma ReadEntry(schema: Schema, e: Entry, tail: Bytes, es: seq<Entry>)
    requires schema.Valid() && Typed(schema, e)
    ensures TakeConf(schema, Source(EntryBytes(e) + tail, false), es) ==
        TakeConf(schema, Source(tail, false), Inserted(es, e))
  {
    hide TakeUint32, TakeSecondary, TakeValue, Uint32, SecondaryBytes, ValueBytes, Inserted, Typed;
    var k, v := SecondaryBytes(e.key.secondary), ValueBytes(e.value);
    assert EntryBytes(e) + tail == Uint32(e.key.primary) + (k + (v + tail));
    TypedPrimary(schema, e);
    ReadCount(e.key.primary, k + (v + tail));
    ReadSecondary(schema, e, v + tail);
    ReadValue(schema, e, tail);
  }

  lemma TypedPrimary(schema: Schema, e: Entry)
    requires schema.Valid() && Typed(schema, e)
    ensures e.key.primary < |schema.subkeys|
  {
  }

  /** Inserting a list of entries one after another. */
  function InsertedAll(es: seq<Entry>, added: seq<Entry>): seq<Entry>
    decreases added
  {
    if added == [] then es else InsertedAll(Inserted(es, added[0]), added[1..])
  }

  /** Reading a serialised store inserts its entries one by one. */
  lemma {:induction false} ReadSerialised(schema: Schema, es: seq<Entry>, added: seq<Entry>, tail: Bytes)
    requires schema.Valid() && forall e :: e in added ==> Typed(schema, e)
    ensures TakeConf(schema, Source(Serialised(added) + tail, false), es) ==
        (true, InsertedAll(es, added), Source(tail, false))
    decreases added
  {
    hide TakeUint32, TakeSecondary, TakeValue, Uint32, EntryBytes, Inserted, Typed;
    if added == [] {
      ReadCount(TERMINATOR, tail);
    } else {
      ReadEntry(schema, added[0], Serialised(added[1..]) + tail, es);
      Assoc(EntryBytes(added[0]), Serialised(added[1..]), tail);
      ReadSerialised(schema, Inserted(es, added[0]), added[1..], tail);
    }
  }

  /** A greater entry goes to the end. */
  lemma InsertedLast(schema: Schema, es: seq<Entry>, n: nat)
    requires Stored(schema, es) && n < |es|
    ensures Inserted(es[..n], es[n]) == es[..n + 1]
  {
    assert forall i :: 0 <= i < n ==> ConfCmp(es[..n][i].key, es[n].key) < 0;
    assert Lower(es[..n], es[n].key) == n && Upper(es[..n], es[n].key) == n;
  }

  lemma {:induction false} InsertedInOrder(schema: Schema, es: seq<Entry>, n: nat)
    requires Stored(schema, es) && n <= |es|
    ensures InsertedAll(es[..n], es[n..]) == es
    decreases |es| - n
  {
    hide Inserted, Stored;
    if n < |es| {
      InsertedLast(schema, es, n);
      assert es[n..][0] == es[n] && es[n..][1..] == es[n + 1..];
      InsertedInOrder(schema, es, n + 1);
    } else {
      assert es[..n] == es;
    }
  }

  /** Reading a serialised store into an empty one rebuilds exactly the same entries, and what
      follows the terminator is left unread. */
  lemma SerialiseRoundTrip(schema: Schema, es: seq<Entry>, tail: Bytes)
    requires Stored(schema, es)
    ensures TakeConf(schema, Source(Serialised(es) + tail, false), []) == (true, es, Source(tail, false))
  {
    hide TakeConf, Serialised, InsertedAll;
    ReadSerialised(schema, [], es, tail);
    InsertedInOrder(schema, es, 0);
    assert es[..0] == [] && es[0..] == es;
  }

  /** Reading it into any store overrides exactly the keys it holds. */
  lemma {:induction false} SerialisedOverrides(schema: Schema, es: seq<Entry>, added: seq<Entry>, tail: Bytes)
    requires Stored(schema, es) && schema.Valid() && (forall e :: e in added ==> Typed(schema, e))
    ensures var (ok, r, s) := TakeConf(schema, Source(Serialised(added) + tail, false), es);
      ok && Stored(schema, r) && AsMap(r) == AsMap(es) + FoldMap(added)
    decreases added
  {
    hide TakeConf, Serialised, Stored, Inserted, AsMap;
    ReadSerialised(schema, es, added, tail);
    InsertedAllMap(schema, es, added);
  }

  /** The last value given to each key. */
  function FoldMap(added: seq<Entry>): map<Key, Value> {
    if added == [] then map[] else map[added[0].key := added[0].value] + FoldMap(added[1..])
  }

  lemma {:induction false} InsertedAllMap(schema: Schema, es: seq<Entry>, added: seq<Entry>)
    requires Stored(schema, es) && schema.Valid() && (forall e :: e in added ==> Typed(schema, e))
    ensures Stored(schema, InsertedAll(es, added)) && AsMap(InsertedAll(es, added)) == AsMap(es) + FoldMap(added)
    decreases added
  {
    hide Stored, Inserted, AsMap, Typed;
    if added != [] {
      InsertedStored(schema, es, added[0]);
      InsertedMap(schema, es, added[0]);
      InsertedAllMap(schema, Inserted(es, added[0]), added[1..]);
    }
  }

  // ---------------------------------------------------------------- truncated data

  lemma {:induction false} FindNulNone(s: Bytes)
    requires 0 !in s
    ensures FindNul(s) == |s|
  {
    if s != [] {
      assert s[0] in s && forall b :: b in s[1..] ==> b in s;
      FindNulNone(s[1..]);
    }
  }

  lemma ErrSticks(t: SubkeyType, v: ValueType, s: Source)
    requires s.err
    ensures TakeSecondary(t, s).1.err && TakeValue(v, s).1.err
  {
  }

  lemma CutAsciz(s: Bytes, n: nat)
    requires 0 !in s && n < |Asciz(s)|
    ensures TakeAsciz(Source(Asciz(s)[..n], false)).1.err
  {
    assert Asciz(s)[..n] == s[..n];
    assert forall b :: b in s[..n] ==> b in s;
    FindNulNone(s[..n]);
  }

  lemma CutSecondary(schema: Schema, e: Entry, n: nat)
    requires schema.Valid() && Typed(schema, e) && n < |SecondaryBytes(e.key.secondary)|
    ensures TakeSecondary(schema.subkeys[e.key.primary], Source(SecondaryBytes(e.key.secondary)[..n], false)).1.err
  {
    match e.key.secondary {
      case NoKey =>
      case IntKey(i) =>
      case StrKey(s) => CutAsciz(s, n);
    }
  }

  lemma CutValue(schema: Schema, e: Entry, n: nat)
    requires schema.Valid() && Typed(schema, e) && n < |ValueBytes(e.value)|
    ensures TakeValue(schema.values[e.key.primary], Source(ValueBytes(e.value)[..n], false)).1.err
  {
    hide TakeAsciz, Uint32;
    match e.value {
      case BoolVal(b) =>
      case IntVal(i) =>
      case StrVal(s) => CutAsciz(s, n);
      case FileVal(s) => CutAsciz(s, n);
      case FontVal(s) => CutAsciz(s, n);
    }
  }

  lemma FieldsCut(e: Entry, n: nat)
    requires n < |FieldBytes(e)|
    ensures var k, v := SecondaryBytes(e.key.secondary), ValueBytes(e.value);
      if n < |k| then FieldBytes(e)[..n] == k[..n] else n - |k| < |v| && FieldBytes(e)[..n] == k + v[..n - |k|]
  {
    hide SecondaryBytes, ValueBytes;
    var k, v := SecondaryBytes(e.key.secondary), ValueBytes(e.value);
    if n < |k| { CutFront(k, v, n); } else { CutBack(k, v, n); }
  }

  /** The fields after the number of the option, cut short. */
  lemma CutFields(schema: Schema, e: Entry, n: nat, r: Bytes)
    requires schema.Valid() && Typed(schema, e) && n < |FieldBytes(e)|
    requires r == FieldBytes(e)[..n] && e.key.primary < |schema.subkeys|
    ensures CutsOff(schema, e.key.primary, r)
  {
    FieldsCut(e, n);
    hide *;
    var k := |SecondaryBytes(e.key.secondary)|;
    if n < k {
      CutInSecondary(schema, e, n, r);
    } else {
      CutInValue(schema, e, n - k, r);
    }
  }

  /** Reading both fields of an entry runs out of data. */
  predicate CutsOff(schema: Schema, primary: nat, r: Bytes)
    requires schema.Valid() && primary < |schema.subkeys|
  {
    TakeValue(schema.values[primary], TakeSecondary(schema.subkeys[primary], Source(r, false)).1).1.err
  }

  lemma CutInSecondary(schema: Schema, e: Entry, n: nat, r: Bytes)
    requires schema.Valid() && Typed(schema, e) && e.key.primary < |schema.subkeys|
    requires n < |SecondaryBytes(e.key.secondary)| && r == SecondaryBytes(e.key.secondary)[..n]
    ensures CutsOff(schema, e.key.primary, r)
  {
    hide TakeSecondary, TakeValue, SecondaryBytes, Typed;
    var p := e.key.primary;
    CutSecondary(schema, e, n);
    ErrSticks(schema.subkeys[p], schema.values[p], TakeSecondary(schema.subkeys[p], Source(r, false)).1);
  }

  lemma CutInValue(schema: Schema, e: Entry, n: nat, r: Bytes)
    requires schema.Valid() && Typed(schema, e) && e.key.primary < |schema.subkeys|
    requires n < |ValueBytes(e.value)| && r == SecondaryBytes(e.key.secondary) + ValueBytes(e.value)[..n]
    ensures CutsOff(schema, e.key.primary, r)
  {
    hide TakeSecondary, TakeValue, SecondaryBytes, ValueBytes, Typed;
    ReadSecondary(schema, e, ValueBytes(e.value)[..n]);
    CutValue(schema, e, n);
  }

  lemma CutFront(k: Bytes, v: Bytes, n: nat)
    requires n <= |k|
    ensures (k + v)[..n] == k[..n]
  {
  }

  lemma CutBack(k: Bytes, v: Bytes, n: nat)
    requires |k| <= n <= |k + v|
    ensures (k + v)[..n] == k + v[..n - |k|]
  {
  }

  lemma CutNumber(schema: Schema, r: Bytes, es: seq<Entry>)
    requires schema.Valid() && |r| < 4
    ensures !TakeConf(schema, Source(r, false), es).0
  {
    hide TakeSecondary, TakeValue, Inserted;
  }

  lemma CutAfterNumber(schema: Schema, primary: nat, r: Bytes, es: seq<Entry>)
    requires schema.Valid() && primary < |schema.subkeys| && CutsOff(schema, primary, r)
    ensures !TakeConf(schema, Source(Uint32(primary) + r, false), es).0
  {
    hide TakeSecondary, TakeValue, Uint32, Inserted, TakeUint32;
    ReadCount(primary, r);
  }

  lemma CutEntry(schema: Schema, e: Entry, n: nat, es: seq<Entry>)
    requires schema.Valid() && Typed(schema, e) && n < |EntryBytes(e)|
    ensures !TakeConf(schema, Source(EntryBytes(e)[..n], false), es).0
  {
    TypedPrimary(schema, e);
    hide TakeConf, CutsOff, Uint32, FieldBytes, Typed;
    if n < 4 {
      CutNumber(schema, EntryBytes(e)[..n], es);
    } else {
      CutBack(Uint32(e.key.primary), FieldBytes(e), n);
      CutFields(schema, e, n - 4, FieldBytes(e)[..n - 4]);
      CutAfterNumber(schema, e.key.primary, FieldBytes(e)[..n - 4], es);
    }
  }

  /** Every strict prefix of a serialised store is rejected. */
  lemma {:induction false} PrefixRejected(schema: Schema, added: seq<Entry>, n: nat, es: seq<Entry>)
    requires schema.Valid() && (forall e :: e in added ==> Typed(schema, e)) && n < |Serialised(added)|
    ensures !TakeConf(schema, Source(Serialised(added)[..n], false), es).0
    decreases added
  {
    hide EntryBytes, TakeSecondary, TakeValue, Uint32, Inserted, Typed;
    if added != [] {
      var head, tail := EntryBytes(added[0]), Serialised(added[1..]);
      if n < |head| {
        assert Serialised(added)[..n] == head[..n];
        CutEntry(schema, added[0], n, es);
      } else {
        assert Serialised(added)[..n] == head + tail[..n - |head|];
        ReadEntry(schema, added[0], tail[..n - |head|], es);
        PrefixRejected(schema, added[1..], n - |head|, Inserted(es, added[0]));
      }
    }
  }

  function AllEntryBytes(es: seq<Entry>): Bytes {
    if es == [] then [] else EntryBytes(es[0]) + AllEntryBytes(es[1..])
  }

  /** Data that names an option that does not exist is rejected, whatever goes before and after it;
      what came before has been inserted. */
  lemma {:induction false} UnknownRejected(schema: Schema, added: seq<Entry>, primary: nat, tail: Bytes, es: seq<Entry>)
    requires schema.Valid() && forall e :: e in added ==> Typed(schema, e)
    requires |schema.subkeys| <= primary < 0xFFFF_FFFF
    ensures var (ok, r, s) := TakeConf(schema, Source(AllEntryBytes(added) + Uint32(primary) + tail, false), es);
      !ok && r == InsertedAll(es, added)
    decreases added
  {
    hide TakeUint32, TakeSecondary, TakeValue, Uint32, EntryBytes, Inserted, Typed;
    if added == [] {
      ReadCount(primary, tail);
      assert [] + Uint32(primary) + tail == Uint32(primary) + tail;
    } else {
      var rest := AllEntryBytes(added[1..]) + Uint32(primary) + tail;
      ReadEntry(schema, added[0], rest, es);
      assert AllEntryBytes(added) + Uint32(primary) + tail == EntryBytes(added[0]) + rest;
      UnknownRejected(schema, added[1..], primary, tail, Inserted(es, added[0]));
    }
  }
}
