/**
 Private key files in the old OpenSSH (PEM) form and in the ssh.com form: the bodies that
 the writers build from a key's public and private blobs, and the readers that rebuild the
 blobs from them.
 */
module KeyFiles {
  import opened Marshal
  import opened Ber

  // ---------------------------------------------------------------- keys and their blobs

  /** The integers of a key, each as the contents of an SSH mpint. */
  datatype Key =
    | Rsa(e: Bytes, n: Bytes, d: Bytes, p: Bytes, q: Bytes, iqmp: Bytes)
    | Dsa(p: Bytes, q: Bytes, g: Bytes, y: Bytes, x: Bytes)

  function Ascii(s: string): (r: Bytes)
    ensures |r| == |s|
  {
    if s == [] then [] else [s[0] as int % 256] + Ascii(s[1..])
  }

  function PublicFields(k: Key): seq<Bytes> {
    if k.Rsa? then [Ascii("ssh-rsa"), k.e, k.n] else [Ascii("ssh-dss"), k.p, k.q, k.g, k.y]
  }

  function PrivateFields(k: Key): seq<Bytes> {
    if k.Rsa? then [k.d, k.p, k.q, k.iqmp] else [k.x]
  }

  function PublicBlob(k: Key): Bytes {
    Strings(PublicFields(k))
  }

  function PrivateBlob(k: Key): Bytes {
    Strings(PrivateFields(k))
  }

  function Strings(xs: seq<Bytes>): Bytes {
    if xs == [] then [] else String(xs[0]) + Strings(xs[1..])
  }

  function Integers(k: Key): seq<Bytes> {
    if k.Rsa? then [k.e, k.n, k.d, k.p, k.q, k.iqmp] else [k.p, k.q, k.g, k.y, k.x]
  }

  /** Every integer is a canonical mpint, and lengths fit the 32-bit fields. */
  predicate WellFormed(k: Key) {
    forall x :: x in Integers(k) ==> IsMpint(x) && |x| * 8 < TWO_31
  }

  /** A block cipher keyed by a passphrase: decryption undoes encryption. */
  datatype Cipher = Cipher(encrypt: Bytes -> Bytes, decrypt: Bytes -> Bytes)

  ghost predicate Inverts(c: Cipher) {
    forall x: Bytes {:trigger c.encrypt(x)} :: |x| % 8 == 0 ==> |c.encrypt(x)| == |x| && c.decrypt(c.encrypt(x)) == x
  }

  datatype Option<T> = None | Some(value: T)

  datatype Outcome =
    | Blobs(pub: Bytes, priv: Bytes)
    | Failure(message: string, wrongPassphrase: bool)

  // ---------------------------------------------------------------- the PEM body

  function ToBytes(v: nat, n: nat): Bytes {
    if n == 0 then [] else ToBytes(v / 256, n - 1) + [v % 256]
  }

  /** The bytes of a number, with room for a sign bit. */
  function SignedBytes(v: nat): Bytes {
    ToBytes(v, (NumBits(v) + 8) / 8)
  }

  method BytesOfNumber(v: nat) returns (r: Bytes)
    ensures r == SignedBytes(v)
  {
    var n := (NumBits(v) + 8) / 8;
    r := [];
    var i := 0;
    while i < n
      invariant 0 <= i <= n && r == ToBytes(Shift8(v, n - i), i)
    {
      ShiftMore(v, n - i - 1);
      r := r + [Shift8(v, n - 1 - i) % 256];
      i := i + 1;
    }
  }

  /** The numbers in a PEM body, in file order. */
  function PemNumbers(k: Key): seq<Bytes>
    requires k.Rsa? ==> Value(k.p) > 1 && Value(k.q) > 1
  {
    if k.Rsa? then
      [[0], k.n, k.e, k.d, k.p, k.q,
       SignedBytes(Value(k.d) % (Value(k.p) - 1)), SignedBytes(Value(k.d) % (Value(k.q) - 1)), k.iqmp]
    else [[0], k.p, k.q, k.g, k.y, k.x]
  }

  function DerIntegers(xs: seq<Bytes>): Bytes
    requires forall x :: x in xs ==> |x| < TWO_31
  {
    if xs == [] then [] else Header(2, |xs[0]|, 0) + xs[0] + DerIntegers(xs[1..])
  }

  /** All lengths that the writer passes on as C ints fit. */
  predicate PemFits(k: Key) {
    && (k.Rsa? ==> Value(k.p) > 1 && Value(k.q) > 1)
    && (forall x :: x in PemNumbers(k) ==> |x| < TWO_31)
    && |DerIntegers(PemNumbers(k))| < TWO_31
  }

  function PemBody(k: Key): Bytes
    requires PemFits(k)
  {
    Header(16, |DerIntegers(PemNumbers(k))|, 0x20) + DerIntegers(PemNumbers(k))
  }

  /** One to eight bytes, each holding their number, up to a multiple of eight. */
  function PemPadding(n: nat): Bytes {
    seq(8 - n % 8, i => 8 - n % 8)
  }

  function PemFile(k: Key, cipher: Option<Cipher>): Bytes
    requires PemFits(k)
  {
    var body := PemBody(k);
    if cipher.Some? then cipher.value.encrypt(body + PemPadding(|body|)) else body
  }

  /** Picking the fields out of a blob that the program made itself. */
  method GetStrings(blob: Bytes, ghost xs: seq<Bytes>, n: nat) returns (r: seq<Bytes>)
    requires blob == Strings(xs) && |xs| == n && forall x :: x in xs ==> |x| < TWO_31
    ensures r == xs
  {
    var src := new BinarySource(blob);
    r := [];
    var i := 0;
    while i < n
      invariant 0 <= i <= n && fresh(src) && src.Valid()
      invariant src.View() == Source(Strings(xs[i..]), false) && r == xs[..i]
    {
      assert xs[i..][0] == xs[i] && xs[i..][1..] == xs[i + 1..] && xs[i] in xs;
      ReadString(xs[i], Strings(xs[i + 1..]));
      var x := src.GetString();
      r := r + [x];
      i := i + 1;
    }
  }

  method RsaFields(pub: Bytes, priv: Bytes, ghost k: Key)
    returns (e: Bytes, n: Bytes, d: Bytes, p: Bytes, q: Bytes, iqmp: Bytes)
    requires WellFormed(k) && k.Rsa? && pub == PublicBlob(k) && priv == PrivateBlob(k)
    ensures Rsa(e, n, d, p, q, iqmp) == k
  {
    FieldsFit(k);
    hide IsMpint, Strings, WellFormed, Ascii;
    var a := GetStrings(pub, PublicFields(k), 3);
    e, n := a[1], a[2];
    var b := GetStrings(priv, PrivateFields(k), 4);
    d, p, q, iqmp := b[0], b[1], b[2], b[3];
  }

  method DsaFields(pub: Bytes, priv: Bytes, ghost k: Key) returns (p: Bytes, q: Bytes, g: Bytes, y: Bytes, x: Bytes)
    requires WellFormed(k) && k.Dsa? && pub == PublicBlob(k) && priv == PrivateBlob(k)
    ensures Dsa(p, q, g, y, x) == k
  {
    FieldsFit(k);
    hide IsMpint, Strings, WellFormed, Ascii;
    var a := GetStrings(pub, PublicFields(k), 5);
    p, q, g, y := a[1], a[2], a[3], a[4];
    var b := GetStrings(priv, PrivateFields(k), 1);
    x := b[0];
  }

  /** The numbers to be written, from the blobs; the first one is the version. */
  method PemNumbersOf(rsa: bool, pub: Bytes, priv: Bytes, ghost k: Key) returns (numbers: seq<Bytes>)
    requires WellFormed(k) && PemFits(k) && rsa == k.Rsa? && pub == PublicBlob(k) && priv == PrivateBlob(k)
    ensures numbers == PemNumbers(k)
  {
    hide Value, SignedBytes, DerIntegers, WellFormed, PublicBlob, PrivateBlob;
    if rsa {
      var e, n, d, p, q, iqmp := RsaFields(pub, priv, k);
      var dmp1 := BytesOfNumber(Value(d) % (Value(p) - 1));
      var dmq1 := BytesOfNumber(Value(d) % (Value(q) - 1));
      numbers := [[0], n, e, d, p, q, dmp1, dmq1, iqmp];
    } else {
      var p, q, g, y, x := DsaFields(pub, priv, k);
      numbers := [[0], p, q, g, y, x];
    }
  }

  lemma FieldsFit(k: Key)
    requires WellFormed(k)
    ensures forall x :: x in PublicFields(k) || x in PrivateFields(k) ==> |x| < TWO_31
  {
    forall x | x in PublicFields(k) || x in PrivateFields(k)
      ensures |x| < TWO_31
    {
      assert x in Integers(k) || x == PublicFields(k)[0];
    }
  }

  method WriteDer(numbers: seq<Bytes>) returns (body: StrBuf)
    requires forall x :: x in numbers ==> |x| < TWO_31
    ensures fresh(body) && body.data == DerIntegers(numbers)
  {
    hide Header;
    body := new StrBuf();
    var i := 0;
    while i < |numbers|
      invariant 0 <= i <= |numbers| && fresh(body)
      invariant body.data + DerIntegers(numbers[i..]) == DerIntegers(numbers)
    {
      var x := numbers[i];
      assert numbers[i..][0] == x && numbers[i..][1..] == numbers[i + 1..];
      ghost var before := body.data;
      PutBerIdLen(body, 2, |x|, 0);
      body.PutData(x);
      Assoc(before, Header(2, |x|, 0), x);
      Assoc(before, Header(2, |x|, 0) + x, DerIntegers(numbers[i + 1..]));
      i := i + 1;
    }
    assert DerIntegers(numbers[|numbers|..]) == [];
  }

  /** The PEM writer: the numbers of both blobs and two more exponents as a DER sequence,
      padded and encrypted when there is a passphrase. */
  method WritePem(rsa: bool, pub: Bytes, priv: Bytes, cipher: Option<Cipher>, ghost k: Key) returns (file: Bytes)
    requires WellFormed(k) && PemFits(k) && rsa == k.Rsa? && pub == PublicBlob(k) && priv == PrivateBlob(k)
    ensures file == PemFile(k, cipher)
  {
    hide Header, PemNumbers, DerIntegers, PublicBlob, PrivateBlob, WellFormed, Value;
    var numbers := PemNumbersOf(rsa, pub, priv, k);
    var body := WriteDer(numbers);
    var out := new StrBuf();
    PutBerIdLen(out, 16, |body.data|, 0x20);
    out.PutData(body.data);
    assert out.data == PemBody(k);

    file := EncryptPem(out, cipher);
  }

  method EncryptPem(out: StrBuf, cipher: Option<Cipher>) returns (file: Bytes)
    modifies out
    ensures file == old(if cipher.Some? then cipher.value.encrypt(out.data + PemPadding(|out.data|)) else out.data)
  {
    if cipher.Some? {
      var outlen := (|out.data| + 8) / 8 * 8;
      var pad := outlen - |out.data|;
      assert pad == 8 - |out.data| % 8;
      out.PutPadding(pad, pad);
      file := cipher.value.encrypt(out.data);
    } else {
      file := out.data;
    }
  }

  // ---------------------------------------------------------------- reading a PEM body

  /** What the reader has built after some of the integers. */
  datatype Progress = Progress(blob: Bytes, modulus: Bytes, privptr: nat)

  function Place(rsa: bool, i: nat, x: Bytes, a: Progress): Progress {
    if i == 0 then a
    else if rsa then
      if i == 1 then a.(modulus := x)
      else if i == 6 || i == 7 then a
      else
        var blob := a.blob + String(MpintOf(x));
        if i == 2 then
          var both := blob + String(MpintOf(a.modulus));
          a.(blob := both, privptr := |both|)
        else a.(blob := blob)
    else
      var blob := a.blob + String(MpintOf(x));
      a.(blob := blob, privptr := if i == 4 then |blob| else a.privptr)
  }

  const NOT_DER := "ASN.1 decoding failure"
  const BAD_VERSION := "version number mismatch"

  datatype Parsed = Done(progress: Progress) | Bad(message: string, wrongPassphrase: bool)

  function TakeIntegers(rsa: bool, encrypted: bool, s: Source, i: nat, n: nat, a: Progress): Parsed
    requires i <= n
    decreases n - i
  {
    if i == n then Done(a)
    else
      var (item, s') := TakeBer(s);
      if s'.err || item.id != 2 then Bad(NOT_DER, encrypted)
      else if i == 0 && item.data != [0] then Bad(BAD_VERSION, false)
      else TakeIntegers(rsa, encrypted, s', i + 1, n, Place(rsa, i, item.data, a))
  }

  function Start(rsa: bool): Progress {
    Progress(String(Ascii(if rsa then "ssh-rsa" else "ssh-dss")), [], 0)
  }

  function ReadPemSpec(rsa: bool, file: Bytes, cipher: Option<Cipher>): Outcome {
    var plain := if cipher.Some? then cipher.value.decrypt(file) else file;
    var (seqn, s) := TakeBer(Source(plain, false));
    if s.err || seqn.id != 16 then Failure(NOT_DER, cipher.Some?)
    else
      match TakeIntegers(rsa, cipher.Some?, Source(seqn.data, false), 0, if rsa then 9 else 6, Start(rsa))
      case Bad(m, w) => Failure(m, w)
      case Done(a) => if a.privptr <= |a.blob| then Blobs(a.blob[..a.privptr], a.blob[a.privptr..]) else Failure("",
          false)
  }

  method ReadPem(rsa: bool, file: Bytes, cipher: Option<Cipher>) returns (r: Outcome)
    ensures r == ReadPemSpec(rsa, file, cipher)
  {
    hide TakeBer, TakeIntegers;
    var plain := file;
    if cipher.Some? {
      plain := cipher.value.decrypt(file);
    }
    var src := new BinarySource(plain);
    var seqn := GetBer(src);
    if src.err || seqn.id != 16 {
      return Failure(NOT_DER, cipher.Some?);
    }
    src := new BinarySource(seqn.data);
    var parsed := ReadIntegers(rsa, cipher.Some?, src);
    r := match parsed
      case Bad(m, w) => Failure(m, w)
      case Done(a) => if a.privptr <= |a.blob| then Blobs(a.blob[..a.privptr], a.blob[a.privptr..]) else Failure("",
          false);
  }

  method ReadIntegers(rsa: bool, encrypted: bool, src: BinarySource) returns (r: Parsed)
    requires src.Valid()
    modifies src
    ensures r == TakeIntegers(rsa, encrypted, old(src.View()), 0, if rsa then 9 else 6, Start(rsa))
  {
    hide TakeBer, MpintOf;
    var num := if rsa then 9 else 6;
    var blob := new StrBuf();
    blob.PutString(Ascii(if rsa then "ssh-rsa" else "ssh-dss"));
    var modulus: Bytes := [];
    var privptr := 0;
    assert blob.data == Start(rsa).blob;
    ghost var goal := TakeIntegers(rsa, encrypted, src.View(), 0, num, Start(rsa));
    var i := 0;
    while i < num
      invariant 0 <= i <= num && fresh(blob) && src.Valid()
      invariant 0 <= privptr <= |blob.data|
      invariant TakeIntegers(rsa, encrypted, src.View(), i, num, Progress(blob.data, modulus, privptr)) == goal
    {
      ghost var a := Progress(blob.data, modulus, privptr);
      var integer := GetBer(src);
      if src.err || integer.id != 2 {
        return Bad(NOT_DER, encrypted);
      }
      if i == 0 {
        if |integer.data| != 1 || integer.data[0] != 0 {
          return Bad(BAD_VERSION, false);
        }
        assert integer.data == [0];
      } else if rsa {
        if i == 1 {
          modulus := integer.data;
        } else if i != 6 && i != 7 {
          PutMpSsh2FromString(blob, integer.data);
          if i == 2 {
            PutMpSsh2FromString(blob, modulus);
            privptr := |blob.data|;
          }
        }
      } else {
        PutMpSsh2FromString(blob, integer.data);
        if i == 4 {
          privptr := |blob.data|;
        }
      }
      assert Progress(blob.data, modulus, privptr) == Place(rsa, i, integer.data, a);
      i := i + 1;
    }
    r := Done(Progress(blob.data, modulus, privptr));
  }

  // ---------------------------------------------------------------- the PEM round trip

  /** The progress after the first n of the numbers. */
  function PlaceUpTo(rsa: bool, xs: seq<Bytes>, n: nat): Progress
    requires n <= |xs|
  {
    if n == 0 then Start(rsa) else Place(rsa, n - 1, xs[n - 1], PlaceUpTo(rsa, xs, n - 1))
  }

  lemma {:induction false} ReadDerIntegers(rsa: bool, encrypted: bool, i: nat, xs: seq<Bytes>)
    requires i <= |xs| && (forall x :: x in xs ==> |x| < TWO_31) && (xs != [] ==> xs[0] == [0])
    ensures TakeIntegers(rsa, encrypted, Source(DerIntegers(xs[i..]), false), i, |xs|, PlaceUpTo(rsa, xs, i))
      == Done(PlaceUpTo(rsa, xs, |xs|))
    decreases |xs| - i
  {
    hide TakeBer, Header, Place;
    if i < |xs| {
      assert xs[i..][0] == xs[i] && xs[i..][1..] == xs[i + 1..];
      ReadBer(2, 0, xs[i], DerIntegers(xs[i + 1..]));
      ReadDerIntegers(rsa, encrypted, i + 1, xs);
    }
  }

  lemma MpintsUnchanged(k: Key)
    requires WellFormed(k)
    ensures forall x :: x in Integers(k) ==> MpintOf(x) == x
  {
    forall x | x in Integers(k)
      ensures MpintOf(x) == x
    {
      MpintOfCanonical(x);
    }
  }

  /** Placing the nine RSA numbers rebuilds the public blob, then the private one. */
  lemma PlaceRsa(k: Key, xs: seq<Bytes>)
    requires k.Rsa? && WellFormed(k) && |xs| == 9 && xs[1..6] == [k.n, k.e, k.d, k.p, k.q] && xs[8] == k.iqmp
    ensures PlaceUpTo(true, xs, 9) == Progress(PublicBlob(k) + PrivateBlob(k), k.n, |PublicBlob(k)|)
  {
    hide String, MpintOf, WellFormed, PublicBlob, PrivateBlob;
    MpintsUnchanged(k);
    assert xs[1] == xs[1..6][0] && xs[2] == xs[1..6][1] && xs[3] == xs[1..6][2] && xs[4] == xs[1..6][3] &&
        xs[5] == xs[1..6][4];
    assert k.e in Integers(k) && k.n in Integers(k) && k.d in Integers(k) && k.p in Integers(k) &&
        k.q in Integers(k) && k.iqmp in Integers(k);
    var a := Start(true).(modulus := k.n);
    var pub := a.blob + String(k.e) + String(k.n);
    assert PlaceUpTo(true, xs, 1) == Start(true);
    assert PlaceUpTo(true, xs, 2) == a;
    var b := Progress(pub, k.n, |pub|);
    assert PlaceUpTo(true, xs, 3) == b;
    assert PlaceUpTo(true, xs, 4) == b.(blob := pub + String(k.d));
    assert PlaceUpTo(true, xs, 5) == b.(blob := pub + String(k.d) + String(k.p));
    var c := b.(blob := pub + String(k.d) + String(k.p) + String(k.q));
    assert PlaceUpTo(true, xs, 6) == c;
    assert PlaceUpTo(true, xs, 7) == c;
    assert PlaceUpTo(true, xs, 8) == c;
    RsaBlobs(k, pub);
  }

  lemma RsaBlobs(k: Key, pub: Bytes)
    requires k.Rsa? && pub == Start(true).blob + String(k.e) + String(k.n)
    ensures pub == PublicBlob(k)
    ensures pub + String(k.d) + String(k.p) + String(k.q) + String(k.iqmp) == pub + PrivateBlob(k)
  {
    hide String;
    StringsCons(Ascii("ssh-rsa"), [k.e, k.n]);
    AppendOne(Start(true).blob, k.e, [k.n]);
    AppendOne(Start(true).blob + String(k.e), k.n, []);
    AppendOne(pub, k.d, [k.p, k.q, k.iqmp]);
    AppendOne(pub + String(k.d), k.p, [k.q, k.iqmp]);
    AppendOne(pub + String(k.d) + String(k.p), k.q, [k.iqmp]);
    AppendOne(pub + String(k.d) + String(k.p) + String(k.q), k.iqmp, []);
  }

  lemma StringsCons(x: Bytes, xs: seq<Bytes>)
    ensures Strings([x] + xs) == String(x) + Strings(xs)
  {
    assert ([x] + xs)[1..] == xs;
  }

  lemma AppendOne(blob: Bytes, x: Bytes, xs: seq<Bytes>)
    ensures blob + Strings([x] + xs) == blob + String(x) + Strings(xs)
    ensures xs == [] ==> blob + Strings([x] + xs) == blob + String(x)
  {
    hide String;
    StringsCons(x, xs);
    Assoc(blob, String(x), Strings(xs));
  }

  lemma DsaBlobs(k: Key, pub: Bytes)
    requires k.Dsa? && pub == Start(false).blob + String(k.p) + String(k.q) + String(k.g) + String(k.y)
    ensures pub == PublicBlob(k) && pub + String(k.x) == pub + PrivateBlob(k)
  {
    hide String;
    var a := Start(false).blob;
    StringsCons(Ascii("ssh-dss"), [k.p, k.q, k.g, k.y]);
    AppendOne(a, k.p, [k.q, k.g, k.y]);
    AppendOne(a + String(k.p), k.q, [k.g, k.y]);
    AppendOne(a + String(k.p) + String(k.q), k.g, [k.y]);
    AppendOne(a + String(k.p) + String(k.q) + String(k.g), k.y, []);
    AppendOne(pub, k.x, []);
    assert [k.x] + [] == [k.x];
  }

  lemma PlaceDsa(k: Key, xs: seq<Bytes>)
    requires k.Dsa? && WellFormed(k) && xs == [[0], k.p, k.q, k.g, k.y, k.x]
    ensures PlaceUpTo(false, xs, 6) == Progress(PublicBlob(k) + PrivateBlob(k), [], |PublicBlob(k)|)
  {
    hide String, MpintOf;
    MpintsUnchanged(k);
    assert k.p in Integers(k) && k.q in Integers(k) && k.g in Integers(k) && k.y in Integers(k) && k.x in Integers(k);
    var a := Start(false);
    assert PlaceUpTo(false, xs, 1) == a;
    assert PlaceUpTo(false, xs, 2) == a.(blob := a.blob + String(k.p));
    assert PlaceUpTo(false, xs, 3) == a.(blob := a.blob + String(k.p) + String(k.q));
    assert PlaceUpTo(false, xs, 4) == a.(blob := a.blob + String(k.p) + String(k.q) + String(k.g));
    var pub := a.blob + String(k.p) + String(k.q) + String(k.g) + String(k.y);
    assert PlaceUpTo(false, xs, 5) == Progress(pub, [], |pub|);
    DsaBlobs(k, pub);
  }

  /** What the reader finds after decryption is the body, with padding if it was encrypted. */
  lemma PemDecrypts(k: Key, cipher: Option<Cipher>)
    requires PemFits(k) && (cipher.Some? ==> Inverts(cipher.value))
    ensures var file := PemFile(k, cipher);
      (if cipher.Some? then cipher.value.decrypt(file) else file)
        == PemBody(k) + (if cipher.Some? then PemPadding(|PemBody(k)|) else [])
  {
    hide PemBody, PemFits, Inverts, PemPadding;
    var body := PemBody(k);
    if cipher.Some? {
      PaddedDecrypts(cipher.value, body);
    } else {
      assert body + [] == body;
    }
  }

  lemma PaddedDecrypts(c: Cipher, body: Bytes)
    requires Inverts(c)
    ensures c.decrypt(c.encrypt(body + PemPadding(|body|))) == body + PemPadding(|body|)
  {
    assert |body + PemPadding(|body|)| % 8 == 0;
  }

  lemma PemBodyReads(k: Key, tail: Bytes)
    requires PemFits(k)
    ensures TakeBer(Source(PemBody(k) + tail, false)) == (Item(16, 0x20, DerIntegers(PemNumbers(k))), Source(tail,
        false))
  {
    hide TakeBer, Header, PemNumbers, DerIntegers;
    ReadBer(16, 0x20, DerIntegers(PemNumbers(k)), tail);
  }

  lemma PlaceNumbers(k: Key)
    requires WellFormed(k) && PemFits(k)
    ensures var xs := PemNumbers(k);
      && |xs| == (if k.Rsa? then 9 else 6) && xs[0] == [0]
      && var a := PlaceUpTo(k.Rsa?, xs, |xs|); a.blob == PublicBlob(k) + PrivateBlob(k) && a.privptr == |PublicBlob(k)|
  {
    hide PlaceUpTo, PublicBlob, PrivateBlob, DerIntegers, SignedBytes, WellFormed;
    if k.Rsa? { PlaceRsa(k, PemNumbers(k)); } else { PlaceDsa(k, PemNumbers(k)); }
  }

  lemma PemNumbersRead(k: Key, encrypted: bool)
    requires WellFormed(k) && PemFits(k)
    ensures var a := TakeIntegers(k.Rsa?, encrypted, Source(DerIntegers(PemNumbers(k)), false), 0,
        if k.Rsa? then 9 else 6, Start(k.Rsa?));
      a.Done? && a.progress.blob == PublicBlob(k) + PrivateBlob(k) && a.progress.privptr == |PublicBlob(k)|
  {
    hide TakeIntegers, PublicBlob, PrivateBlob, DerIntegers, Start, Place, PemNumbers, WellFormed;
    var xs := PemNumbers(k);
    PlaceNumbers(k);
    assert xs[0..] == xs && PlaceUpTo(k.Rsa?, xs, 0) == Start(k.Rsa?);
    ReadDerIntegers(k.Rsa?, encrypted, 0, xs);
  }

  /** Reading back a written PEM body gives the same public and private blobs, encrypted or
      not; the padding after the sequence is ignored. */
  lemma PemRoundTrip(k: Key, cipher: Option<Cipher>)
    requires WellFormed(k) && PemFits(k) && (cipher.Some? ==> Inverts(cipher.value))
    ensures ReadPemSpec(k.Rsa?, PemFile(k, cipher), cipher) == Blobs(PublicBlob(k), PrivateBlob(k))
  {
    hide PemFile, PemBody, PemNumbers, DerIntegers, TakeBer, TakeIntegers, PublicBlob, PrivateBlob, Start,
        PemPadding, WellFormed, Inverts;
    PemDecrypts(k, cipher);
    PemBodyReads(k, if cipher.Some? then PemPadding(|PemBody(k)|) else []);
    PemNumbersRead(k, cipher.Some?);
    var pub, priv := PublicBlob(k), PrivateBlob(k);
    assert (pub + priv)[..|pub|] == pub && (pub + priv)[|pub|..] == priv;
  }
}
