/**
 What the integers of a written PEM file are to any reader of it: the numbers of the key in the
 order of the format, and the two exponents with which a message comes back modulo each prime.
 */
module KeyFileNumbers {
  import opened Marshal
  import opened Ber
  import opened KeyFiles
  import NT = NumberTheory
  import Fermat

  /** The integers that follow one another to the end of some data, or None if there is anything
      else. */
  function IntegersIn(data: Bytes): Option<seq<Bytes>>
    decreases |data|
  {
    if data == [] then Some([])
    else
      var (item, s) := TakeBer(Source(data, false));
      if s.err || item.id != 2 || item.flags != 0 || |s.rest| >= |data| then None
      else
        var more := IntegersIn(s.rest);
        if more.None? then None else Some([item.data] + more.value)
  }

  lemma {:induction false} ReadIntegersIn(xs: seq<Bytes>)
    requires forall x :: x in xs ==> |x| < TWO_31
    ensures IntegersIn(DerIntegers(xs)) == Some(xs)
  {
    hide TakeBer, Header;
    if xs != [] {
      ReadBer(2, 0, xs[0], DerIntegers(xs[1..]));
      ReadIntegersIn(xs[1..]);
      HeaderNotEmpty(xs[0]);
      assert xs == [xs[0]] + xs[1..];
    }
  }

  lemma HeaderNotEmpty(x: Bytes)
    requires |x| < TWO_31
    ensures |Header(2, |x|, 0)| > 0
  {
  }

  // ---------------------------------------------------------------- numbers as signed bytes

  lemma BitsStep(v: nat)
    ensures NumBits(v) < 8 <==> v < 128
    ensures if v < 256 then NumBits(v) <= 8 && NumBits(v / 256) == 0 else NumBits(v) == 8 + NumBits(v / 256)
  {
    NumBitsByte(v / 256, v % 256);
  }

  lemma {:induction false} ToBytesFits(v: nat, n: nat)
    requires n > 0 && NumBits(v) < 8 * n
    ensures var r := ToBytes(v, n); |r| == n && Value(r) == v && r[0] < 128
  {
    hide NumBits;
    BitsStep(v);
    var front := ToBytes(v / 256, n - 1);
    if n == 1 {
      assert front == [] && Value([]) == 0;
    } else {
      ToBytesFits(v / 256, n - 1);
    }
    assert ToBytes(v, n)[..n - 1] == front;
  }

  lemma {:induction false} ToBytesShort(v: nat, n: nat)
    requires n > 1 && 8 * n - 8 <= NumBits(v) < 8 * n
    ensures var r := ToBytes(v, n); |r| == n && (r[0] != 0 || r[1] >= 128)
  {
    hide NumBits, Value;
    var q := v / 256;
    BitsStep(v);
    ToBytesFits(v, n);
    ToBytesFits(q, n - 1);
    if n > 2 {
      ToBytesShort(q, n - 1);
    } else {
      BitsStep(q);
      assert ToBytes(q, 0) == [] && ToBytes(q, 1) == [q % 256];
    }
  }

  /** The contents of an integer are those of a number that is not negative: the highest bit is
      clear, and no byte could be left out. */
  ghost predicate IsInteger(r: Bytes, v: nat) {
    r != [] && Value(r) == v && r[0] < 128 && (|r| > 1 ==> r[0] != 0 || r[1] >= 128)
  }

  lemma SignedBytesAre(v: nat)
    ensures IsInteger(SignedBytes(v), v)
  {
    var n := (NumBits(v) + 8) / 8;
    ToBytesFits(v, n);
    if n > 1 { ToBytesShort(v, n); }
  }

  // ---------------------------------------------------------------- the numbers of a file

  /** What the cipher makes of the file again. */
  function Plain(file: Bytes, cipher: Option<Cipher>): Bytes {
    if cipher.Some? then cipher.value.decrypt(file) else file
  }

  lemma NumbersRead(k: Key, cipher: Option<Cipher>)
    requires WellFormed(k) && PemFits(k) && (cipher.Some? ==> Inverts(cipher.value))
    ensures var (seqn, s) := TakeBer(Source(Plain(PemFile(k, cipher), cipher), false));
      !s.err && seqn.id == 16 && seqn.flags == 0x20 && IntegersIn(seqn.data) == Some(PemNumbers(k))
  {
    hide PemFile, PemBody, PemNumbers, DerIntegers, TakeBer, PemPadding, WellFormed, Inverts, IntegersIn;
    PemDecrypts(k, cipher);
    PemBodyReads(k, if cipher.Some? then PemPadding(|PemBody(k)|) else []);
    ReadIntegersIn(PemNumbers(k));
  }

  /** An RSA key file is a sequence of nine integers: the version, n, e, d, p, q, the remainders of d modulo
      p - 1 and modulo q - 1, and the inverse of q. */
  lemma RsaFile(k: Key, cipher: Option<Cipher>)
    requires WellFormed(k) && PemFits(k) && (cipher.Some? ==> Inverts(cipher.value)) && k.Rsa?
    ensures var (seqn, s) := TakeBer(Source(Plain(PemFile(k, cipher), cipher), false));
      && !s.err && seqn.id == 16 && seqn.flags == 0x20
      && var xs := IntegersIn(seqn.data);
      && xs.Some? && |xs.value| == 9 && xs.value[..6] == [[0], k.n, k.e, k.d, k.p, k.q] && xs.value[8] == k.iqmp
      && IsInteger(xs.value[6], Value(k.d) % (Value(k.p) - 1)) && IsInteger(xs.value[7], Value(k.d) % (Value(k.q) - 1))
  {
    hide PemFile, TakeBer, WellFormed, Inverts, IntegersIn, Value, IsInteger, DerIntegers, SignedBytes;
    NumbersRead(k, cipher);
    SignedBytesAre(Value(k.d) % (Value(k.p) - 1));
    SignedBytesAre(Value(k.d) % (Value(k.q) - 1));
  }

  /** A DSA key file is one of six: the version, p, q, g, y and x. */
  lemma DsaFile(k: Key, cipher: Option<Cipher>)
    requires WellFormed(k) && PemFits(k) && (cipher.Some? ==> Inverts(cipher.value)) && k.Dsa?
    ensures var (seqn, s) := TakeBer(Source(Plain(PemFile(k, cipher), cipher), false));
      && !s.err && seqn.id == 16 && seqn.flags == 0x20
      && IntegersIn(seqn.data) == Some([[0], k.p, k.q, k.g, k.y, k.x])
  {
    hide PemFile, TakeBer, WellFormed, Inverts, IntegersIn, DerIntegers;
    NumbersRead(k, cipher);
  }

  // ---------------------------------------------------------------- which files are read

  /** The first n integers of a source, or None if something else or nothing comes before there are
      so many. */
  function FirstIntegers(s: Source, n: nat): Option<seq<Bytes>>
    decreases n
  {
    if n == 0 then Some([])
    else
      var (item, s') := TakeBer(s);
      if s'.err || item.id != 2 then None
      else
        var more := FirstIntegers(s', n - 1);
        if more.None? then None else Some([item.data] + more.value)
  }

  lemma {:induction false} LaterIntegers(rsa: bool, encrypted: bool, s: Source, i: nat, n: nat, a: Progress)
    requires 0 < i <= n && a.privptr <= |a.blob|
    ensures var r := TakeIntegers(rsa, encrypted, s, i, n, a);
      if FirstIntegers(s, n - i).Some? then r.Done? && r.progress.privptr <= |r.progress.blob|
      else r == Bad("ASN.1 decoding failure", encrypted)
    decreases n - i
  {
    hide TakeBer, String, MpintOf;
    if i < n {
      var (item, s') := TakeBer(s);
      LaterIntegers(rsa, encrypted, s', i + 1, n, Place(rsa, i, item.data, a));
    }
  }

  /** A file is read if and only if, decrypted, it is a sequence that begins with nine integers for RSA or
      six for DSA, the first of them the version 0. Otherwise the version is named if it is an
      integer but not 0, and else the passphrase is blamed if there was one. */
  lemma ReadPemIff(rsa: bool, file: Bytes, cipher: Option<Cipher>)
    ensures var (seqn, s) := TakeBer(Source(Plain(file, cipher), false));
      var n, inner, r := if rsa then 9 else 6, Source(seqn.data, false), ReadPemSpec(rsa, file, cipher);
      if s.err || seqn.id != 16 || FirstIntegers(inner, 1).None?
      then r == Failure("ASN.1 decoding failure", cipher.Some?)
      else if FirstIntegers(inner, 1) != Some([[0]]) then r == Failure("version number mismatch", false)
      else if FirstIntegers(inner, n).None? then r == Failure("ASN.1 decoding failure", cipher.Some?)
      else r.Blobs?
  {
    hide TakeBer, Place;
    var (seqn, s) := TakeBer(Source(Plain(file, cipher), false));
    if !s.err && seqn.id == 16 {
      FirstIsVersion(rsa, cipher.Some?, Source(seqn.data, false), if rsa then 9 else 6);
    }
  }

  lemma FirstIsVersion(rsa: bool, encrypted: bool, s: Source, n: nat)
    requires n > 0
    ensures var r, first := TakeIntegers(rsa, encrypted, s, 0, n, Start(rsa)), FirstIntegers(s, 1);
      if first.None? then r == Bad("ASN.1 decoding failure", encrypted)
      else if first != Some([[0]]) then r == Bad("version number mismatch", false)
      else if FirstIntegers(s, n).None? then r == Bad("ASN.1 decoding failure", encrypted)
      else r.Done? && r.progress.privptr <= |r.progress.blob|
  {
    hide TakeBer, String, MpintOf;
    var (item, s') := TakeBer(s);
    assert FirstIntegers(s', 0) == Some([]) && [item.data] + [] == [item.data];
    if !s'.err && item.id == 2 {
      if item.data == [0] { LaterIntegers(rsa, encrypted, s', 1, n, Place(rsa, 0, item.data, Start(rsa))); }
    }
  }

  // ---------------------------------------------------------------- the two exponents

  /** Decrypting modulo a prime with the reduced exponent. */
  lemma ReducedExponent(p: int, t: int, e: nat, d: nat, m: nat)
    requires NT.IsPrime(p) && p > 2 && NT.Divides(p - 1, t) && NT.Cong(e * d, 1, t)
    ensures NT.Cong(NT.Pow(NT.Pow(m, e), d % (p - 1)), m, p)
  {
    var r := d % (p - 1);
    NT.DividesTrans(p - 1, t, e * d - 1);
    NT.CongMod(d, p - 1);
    NT.CongRefl(e, p - 1);
    NT.CongMul(e, e, r, d, p - 1);
    NT.CongTrans(e * r, e * d, 1, p - 1);
    var j := Multiple(e * r, p - 1);
    Fermat.FermatExponent(p, m, j);
    NT.PowPow(m, e, r);
  }

  lemma Multiple(x: nat, t: int) returns (j: nat)
    requires t >= 2 && NT.Cong(x, 1, t)
    ensures x == 1 + j * t
  {
    var i :| x - 1 == t * i;
    if i < 0 {
      NT.MulAtLeast(t, -i);
      assert false;
    }
    j := i;
  }

  /** For the prime two nothing is left of the exponent. */
  lemma ReducedExponentIff(p: int, t: int, e: nat, d: nat, m: nat)
    requires NT.IsPrime(p) && p >= 2 && NT.Divides(p - 1, t) && NT.Cong(e * d, 1, t)
    ensures NT.Cong(NT.Pow(NT.Pow(m, e), d % (p - 1)), m, p) <==> p > 2 || m % 2 == 1
  {
    if p > 2 {
      ReducedExponent(p, t, e, d, m);
    } else {
      assert NT.Pow(NT.Pow(m, e), 0) == 1;
      NT.CongIffMod(1, m, 2);
    }
  }

  lemma BothExponents(p: int, q: int, e: nat, d: nat, m: nat)
    requires NT.IsPrime(p) && NT.IsPrime(q) && p >= 2 && q >= 2 && NT.Cong(e * d, 1, (p - 1) * (q - 1))
    ensures NT.Cong(NT.Pow(NT.Pow(m, e), d % (p - 1)), m, p) <==> p > 2 || m % 2 == 1
    ensures NT.Cong(NT.Pow(NT.Pow(m, e), d % (q - 1)), m, q) <==> q > 2 || m % 2 == 1
  {
    hide NT.IsPrime, NT.Cong, NT.Pow, NT.Divides;
    NT.DividesIntro(p - 1, q - 1, (p - 1) * (q - 1));
    NT.DividesIntro(q - 1, p - 1, (p - 1) * (q - 1));
    ReducedExponentIff(p, (p - 1) * (q - 1), e, d, m);
    ReducedExponentIff(q, (p - 1) * (q - 1), e, d, m);
  }

  /** For a key whose e and d are inverse to each other: raising any message to the power e, and the
      result to the power of the sixth integer after the version, gives it back modulo p, and with the
      seventh modulo q; unless the prime is two and the message even. */
  lemma FileDecryptsIff(k: Key, cipher: Option<Cipher>, m: nat)
    requires WellFormed(k) && PemFits(k) && (cipher.Some? ==> Inverts(cipher.value)) && k.Rsa?
    requires NT.IsPrime(Value(k.p)) && NT.IsPrime(Value(k.q))
    requires NT.Cong(Value(k.e) * Value(k.d), 1, (Value(k.p) - 1) * (Value(k.q) - 1))
    ensures var xs := IntegersIn(TakeBer(Source(Plain(PemFile(k, cipher), cipher), false)).0.data);
      && xs.Some? && |xs.value| == 9
      && (NT.Cong(NT.Pow(NT.Pow(m, Value(k.e)), Value(xs.value[6])), m, Value(k.p)) <==> Value(k.p) > 2 || m % 2 == 1)
      && (NT.Cong(NT.Pow(NT.Pow(m, Value(k.e)), Value(xs.value[7])), m, Value(k.q)) <==> Value(k.q) > 2 || m % 2 == 1)
  {
    assert Value(k.p) >= 2 && Value(k.q) >= 2;
    hide *;
    BothExponents(Value(k.p), Value(k.q), Value(k.e), Value(k.d), m);
    RsaFile(k, cipher);
    IntegerValue();
  }

  lemma IntegerValue()
    ensures forall r, v :: IsInteger(r, v) ==> Value(r) == v
  {
  }
}
