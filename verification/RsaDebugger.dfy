/**
 The satellite debugger's RSA key editor: commands set the primes and the public exponent
 one at a time, the modulus and the private exponent are derived, and a held message is
 decrypted with whatever key is set.
 */
module RsaDebugger {
  import opened NumberTheory
  import opened Fermat

  const UNSET := -1

  datatype Option<T> = None | Some(value: T)

  /** The five numbers of the current key; UNSET marks the ones not set. */
  datatype Key = Key(p: int, q: int, n: int, e: int, d: int)

  const NO_KEY := Key(UNSET, UNSET, UNSET, UNSET, UNSET)

  datatype Command = SetP(args: seq<string>) | SetQ(args: seq<string>) | SetE(args: seq<string>) | ResetKey

  /** What the library offers: reading a decimal number, and a primality test. */
  datatype Library = Library(parse: string -> Option<int>, prime: int -> bool)

  ghost predicate Faithful(lib: Library) {
    forall x :: lib.prime(x) <==> IsPrime(x)
  }

  function Abs(x: int): nat {
    if x < 0 then -x else x
  }

  /** The greatest common divisor as the big-integer library computes it. */
  function BigGcd(a: int, b: int): nat {
    Gcd(Abs(a), Abs(b))
  }

  // ---------------------------------------------------------------- the invariant

  function Totient(k: Key): int {
    (k.p - 1) * (k.q - 1)
  }

  ghost predicate Consistent(k: Key) {
    && (k.p != UNSET ==> IsPrime(k.p))
    && (k.q != UNSET ==> k.p != UNSET && IsPrime(k.q) && k.p != k.q && k.n == k.p * k.q)
    && (k.q == UNSET ==> k.n == UNSET && k.d == UNSET)
    && (k.d == UNSET ==> k.e == UNSET)
    && (k.d != UNSET ==> 0 <= k.d < Totient(k) && k.e < Totient(k) && Cong(k.e * k.d, 1, Totient(k)))
  }

  // ---------------------------------------------------------------- what a command does

  /** The least non-negative inverse of e, if there is one. */
  ghost predicate IsInverse(e: int, m: int, d: int) {
    0 <= d < m && Cong(e * d, 1, m)
  }

  ghost predicate Acceptable(lib: Library, k: Key, args: seq<string>) {
    && |args| == 2 && lib.parse(args[1]).Some?
    && k.p != UNSET && k.q != UNSET
    && var e := lib.parse(args[1]).value;
       BigGcd(e, k.p - 1) == 1 && BigGcd(e, k.q - 1) == 1 && e < Totient(k)
  }

  /** The state after a command: what is cleared even when the command goes on to fail, and
      what a successful one stores. */
  ghost predicate After(lib: Library, k: Key, c: Command, k': Key) {
    match c
    case ResetKey => k' == NO_KEY
    case SetP(args) =>
      if |args| != 2 then k' == k
      else
        var cleared := if k.q != UNSET then Key(k.p, UNSET, UNSET, UNSET, UNSET) else k;
        var x := lib.parse(args[1]);
        k' == if x.Some? && IsPrime(x.value) then cleared.(p := x.value) else cleared
    case SetQ(args) =>
      if |args| != 2 || k.p == UNSET then k' == k
      else
        var cleared := if k.q != UNSET then k.(e := UNSET, d := UNSET) else k;
        var x := lib.parse(args[1]);
        k' == if x.Some? && IsPrime(x.value) && x.value != k.p then cleared.(q := x.value,
            n := k.p * x.value) else cleared
    case SetE(args) =>
      if |args| != 2 || k.p == UNSET || k.q == UNSET then k' == k
      else
        var cleared := if k.e != UNSET then k.(e := UNSET, d := UNSET) else k;
        if Acceptable(lib, k, args) then
          k' == k.(e := lib.parse(args[1]).value, d := k'.d) && IsInverse(k'.e, Totient(k), k'.d)
        else k' == cleared
  }

  // ---------------------------------------------------------------- the editor

  class Debugger {
    const lib: Library
    var p: int
    var q: int
    var n: int
    var e: int
    var d: int

    function View(): Key
      reads this
    {
      Key(p, q, n, e, d)
    }

    ghost predicate Valid()
      reads this
    {
      Faithful(lib) && Consistent(View())
    }

    constructor (lib: Library)
      requires Faithful(lib)
      ensures this.lib == lib && Valid() && View() == NO_KEY
    {
      this.lib := lib;
      p, q, n, e, d := UNSET, UNSET, UNSET, UNSET, UNSET;
    }

    method Reset()
      requires Valid()
      modifies this
      ensures Valid() && After(lib, old(View()), ResetKey, View())
    {
      p, q, n, e, d := UNSET, UNSET, UNSET, UNSET, UNSET;
    }

    method SetP(args: seq<string>)
      requires Valid()
      modifies this
      ensures Valid() && After(lib, old(View()), Command.SetP(args), View())
    {
      if |args| != 2 {
        return;
      }
      if q != UNSET {
        q, n, e, d := UNSET, UNSET, UNSET, UNSET;
      }
      var x := lib.parse(args[1]);
      if x.None? {
        return;
      }
      if !lib.prime(x.value) {
        return;
      }
      p := x.value;
    }

    method SetQ(args: seq<string>)
      requires Valid()
      modifies this
      ensures Valid() && After(lib, old(View()), Command.SetQ(args), View())
    {
      if |args| != 2 {
        return;
      }
      if p == UNSET {
        return;
      }
      if q != UNSET {
        e, d := UNSET, UNSET;
      }
      var x := lib.parse(args[1]);
      if x.None? {
        return;
      }
      if !lib.prime(x.value) {
        return;
      }
      PrimesCoprimeIff(x.value, p);
      if BigGcd(x.value, p) != 1 {
        return;
      }
      q := x.value;
      n := p * q;
    }

    method SetE(args: seq<string>)
      requires Valid()
      modifies this
      ensures Valid() && After(lib, old(View()), Command.SetE(args), View())
    {
      if |args| != 2 {
        return;
      }
      if p == UNSET {
        return;
      }
      if q == UNSET {
        return;
      }
      if e != UNSET {
        e, d := UNSET, UNSET;
      }
      var x := lib.parse(args[1]);
      if x.None? {
        return;
      }
      var pm1, qm1 := p - 1, q - 1;
      if BigGcd(x.value, pm1) != 1 {
        return;
      }
      if BigGcd(x.value, qm1) != 1 {
        return;
      }
      var etot := pm1 * qm1;
      if x.value >= etot {
        return;
      }
      TotientAtLeastTwo(p, q);
      var inverse := ModInverse(x.value, pm1, qm1);
      e := x.value;
      d := inverse;
    }

    /** Decryption of a held message with the current key; None when either is missing. */
    method Decrypt(message: int) returns (plain: Option<int>)
      requires Valid()
      ensures plain.Some? <==> d != UNSET && message != UNSET
      ensures plain.Some? ==> d >= 0 && n > 0 && plain.value == Pow(message, d) % n
    {
      if d == UNSET {
        return None;
      }
      if message == UNSET {
        return None;
      }
      MulAtLeast(p, q);
      plain := Some(Pow(message, d) % n);
    }

    /** A session: any sequence of commands, some of which fail. */
    method Session(commands: seq<Command>)
      requires Valid()
      modifies this
      ensures Valid() && Reachable(lib, old(View()), commands, View())
    {
      ghost var trace := [View()];
      for i := 0 to |commands|
        invariant Valid() && |trace| == i + 1 && trace[0] == old(View()) && trace[i] == View()
        invariant forall j :: 0 <= j < i ==> After(lib, trace[j], commands[j], trace[j + 1])
      {
        match commands[i] {
          case SetP(args) => SetP(args);
          case SetQ(args) => SetQ(args);
          case SetE(args) => SetE(args);
          case ResetKey => Reset();
        }
        trace := trace + [View()];
      }
      assert IsRun(lib, commands, trace);
    }
  }

  lemma PrimesCoprimeIff(p: int, q: int)
    requires IsPrime(p) && IsPrime(q)
    ensures BigGcd(p, q) == 1 <==> p != q
  {
    if p != q {
      DistinctPrimesCoprime(p, q);
    } else {
      DividesIntro(p, 1, p);
      GcdGreatest(p, p, p);
      if Gcd(p, p) == 1 { DividesUpTo(p, 1); }
    }
  }

  lemma TotientAtLeastTwo(p: int, q: int)
    requires IsPrime(p) && IsPrime(q) && p != q
    ensures (p - 1) * (q - 1) >= 2
  {
    if p > q {
      MulAtLeast(p - 1, q - 1);
    } else {
      MulAtLeast(q - 1, p - 1);
    }
  }

  /** An exponent coprime to p - 1 and to q - 1 has an inverse modulo their product. */
  lemma InverseExists(e: int, a: nat, b: nat)
    requires a > 0 && b > 0 && BigGcd(e, a) == 1 && BigGcd(e, b) == 1
    ensures exists d: int :: IsInverse(e, a * b, d)
  {
    var x, y := Bezout(Abs(e), a);
    var z, w := Bezout(Abs(e), b);
    var s := if e < 0 then -1 else 1;
    var u, v := s * x, s * z;
    assert e * u + a * y == 1 && e * v + b * w == 1 by {
      assert Abs(e) == s * e;
      MulAssoc(s, e, x);
      MulAssoc(s, e, z);
    }
    InverseProduct(e, a, b, u, y, v, w);
    var t := u + v - e * (u * v);
    MulAtLeast(a, b);
    CongMod(t, a * b);
    CongRefl(e, a * b);
    CongMul(e, e, t % (a * b), t, a * b);
    CongTrans(e * (t % (a * b)), e * t, 1, a * b);
    assert IsInverse(e, a * b, t % (a * b));
  }

  lemma InverseProduct(e: int, a: int, b: int, u: int, y: int, v: int, w: int)
    requires e * u + a * y == 1 && e * v + b * w == 1
    ensures Cong(e * (u + v - e * (u * v)), 1, a * b)
  {
    var s, t := e * u, e * v;
    assert e * (u + v - e * (u * v)) == s + t - s * t by {
      assert e * (e * (u * v)) == s * t;
    }
    assert s + t - s * t == 1 - (1 - s) * (1 - t);
    assert (a * y) * (b * w) == (a * b) * (y * w);
    CongIntro(e * (u + v - e * (u * v)), 1, a * b, -(y * w));
  }

  method ModInverse(e: int, a: nat, b: nat) returns (d: int)
    requires a > 0 && b > 0 && BigGcd(e, a) == 1 && BigGcd(e, b) == 1 && a * b >= 2
    ensures IsInverse(e, a * b, d)
  {
    InverseExists(e, a, b);
    ghost var known :| IsInverse(e, a * b, known);
    CongIffMod(e * known, 1, a * b);
    ModUnique(1, a * b, 0, 1);
    d :| 0 <= d < a * b && (e * d) % (a * b) == 1;
    CongIffMod(e * d, 1, a * b);
  }

  // ---------------------------------------------------------------- runs

  ghost predicate IsRun(lib: Library, commands: seq<Command>, trace: seq<Key>) {
    |trace| == |commands| + 1 &&
    forall j :: 0 <= j < |commands| ==> After(lib, trace[j], commands[j], trace[j + 1])
  }

  /** Some run of the commands leads from k to k'. */
  ghost predicate Reachable(lib: Library, k: Key, commands: seq<Command>, k': Key) {
    exists trace :: IsRun(lib, commands, trace) && trace[0] == k && trace[|commands|] == k'
  }

  lemma AfterConsistent(lib: Library, k: Key, c: Command, k': Key)
    requires Consistent(k) && After(lib, k, c, k')
    ensures Consistent(k')
  {
  }

  lemma {:induction false} RunConsistent(lib: Library, commands: seq<Command>, trace: seq<Key>, i: nat)
    requires IsRun(lib, commands, trace) && trace[0] == NO_KEY && i <= |commands|
    ensures Consistent(trace[i])
  {
    if i > 0 {
      RunConsistent(lib, commands, trace, i - 1);
      AfterConsistent(lib, trace[i - 1], commands[i - 1], trace[i]);
    }
  }

  /** In every state a session can reach, decryption undoes encryption for every message
      below the modulus, including those that share a factor with it. */
  lemma DecryptInvertsEncrypt(lib: Library, commands: seq<Command>, k: Key, m: int)
    requires Reachable(lib, NO_KEY, commands, k)
    requires k.d != UNSET && k.e >= 0 && 0 <= m < k.n
    ensures Consistent(k) && k.d >= 0
    ensures Pow(Pow(m, k.e) % k.n, k.d) % k.n == m
  {
    var trace :| IsRun(lib, commands, trace) && trace[0] == NO_KEY && trace[|commands|] == k;
    RunConsistent(lib, commands, trace, |commands|);
    ConsistentKeyInverts(k, m);
  }

  lemma ConsistentKeyInverts(k: Key, m: int)
    requires Consistent(k) && k.d != UNSET && k.e >= 0 && 0 <= m < k.n
    ensures Pow(Pow(m, k.e) % k.n, k.d) % k.n == m
  {
    TotientAtLeastTwo(k.p, k.q);
    NatProduct(k.e, k.d);
    var j := TotientMultiple(k.e * k.d, Totient(k));
    MulAssoc(j, k.p - 1, k.q - 1);
    FactorExponent(k.p, m, k.e * k.d, j * (k.q - 1));
    FactorExponent(k.q, m, k.e * k.d, j * (k.p - 1));
    DistinctPrimesCoprime(k.p, k.q);
    CoprimeProductDivides(k.p, k.q, Pow(m, k.e * k.d) - m);
    PowPow(m, k.e, k.d);
    CongMod(Pow(m, k.e), k.n);
    CongPow(Pow(m, k.e) % k.n, Pow(m, k.e), k.d, k.n);
    CongTrans(Pow(Pow(m, k.e) % k.n, k.d), Pow(m, k.e * k.d), m, k.n);
    CongIffMod(Pow(Pow(m, k.e) % k.n, k.d), m, k.n);
    ModUnique(m, k.n, 0, m);
  }

  lemma NatProduct(a: nat, b: nat)
    ensures a * b >= 0
  {
  }

  lemma TotientMultiple(x: nat, t: int) returns (j: nat)
    requires t >= 2 && Cong(x, 1, t)
    ensures x == 1 + j * t
  {
    var i :| x - 1 == t * i;
    if i < 0 {
      MulAtLeast(t, -i);
      assert false;
    }
    j := i;
  }

  lemma FactorExponent(p: int, m: nat, x: nat, i: nat)
    requires IsPrime(p) && x == 1 + i * (p - 1)
    ensures Divides(p, Pow(m, x) - m)
  {
    FermatExponent(p, m, i);
  }
}
