/**
 The ssh.com private key format: a nested blob whose length fields are filled in after the
 contents are known, holding bit-counted integers in the format's own order.
 */
module SshcomFiles {
  import opened Marshal
  import opened Ber
  import opened KeyFiles

  const MAGIC := 0x3f6f_f9eb
  const RSA_PREFIX := "if-modn{sign{rsa"
  const DSA_PREFIX := "dl-modp{sign{dsa"
  const RSA_TYPE := RSA_PREFIX + "-pkcs1-sha1},encrypt{rsa-pkcs1v2-oaep}}"
  const DSA_TYPE := DSA_PREFIX + "-nist-sha1},dh{plain}}"

  /** The numbers in file order. */
  function SshcomNumbers(k: Key): seq<Bytes> {
    if k.Rsa? then [k.e, k.d, k.n, k.iqmp, k.q, k.p] else [k.p, k.g, k.q, k.y, k.x]
  }

  function SshcomMpints(xs: seq<Bytes>): Bytes {
    if xs == [] then [] else SshcomMpint(xs[0]) + SshcomMpints(xs[1..])
  }

  function Payload(k: Key): Bytes {
    (if k.Rsa? then [] else Uint32(0)) + SshcomMpints(SshcomNumbers(k))
  }

  /** The part that is encrypted: the payload as a string, then padding if there is a
      passphrase. */
  function Inner(k: Key, padding: Bytes): Bytes {
    String(Payload(k)) + padding
  }

  function Prefix(k: Key, encrypted: bool, total: int): Bytes {
    Uint32(MAGIC) + Uint32(total) + String(Ascii(if k.Rsa? then RSA_TYPE else DSA_TYPE))
      + String(Ascii(if encrypted then "3des-cbc" else "none"))
  }

  function SshcomFile(k: Key, cipher: Option<Cipher>, padding: Bytes): Bytes {
    var inner := Inner(k, padding);
    var total := |Prefix(k, cipher.Some?, 0)| + 4 + |inner|;
    Prefix(k, cipher.Some?, total) + Uint32(|inner|) + (if cipher.Some? then cipher.value.encrypt(inner) else inner)
  }

  /** The padding the writer may add: random bytes up to a multiple of eight. */
  predicate PaddingFor(k: Key, cipher: Option<Cipher>, padding: Bytes) {
    if cipher.Some? then |padding| == (-|String(Payload(k))|) % 8 else padding == []
  }

  /** Lengths fit the 32-bit fields. */
  predicate SshcomFits(k: Key) {
    |Payload(k)| + 64 < TWO_31
  }

  method SshcomNumbersOf(rsa: bool, pub: Bytes, priv: Bytes, ghost k: Key) returns (numbers: seq<Bytes>)
    requires WellFormed(k) && rsa == k.Rsa? && pub == PublicBlob(k) && priv == PrivateBlob(k)
    ensures numbers == SshcomNumbers(k)
  {
    hide WellFormed, PublicBlob, PrivateBlob;
    if rsa {
      var e, n, d, p, q, iqmp := RsaFields(pub, priv, k);
      numbers := [e, d, n, iqmp, q, p];
    } else {
      var p, q, g, y, x := DsaFields(pub, priv, k);
      numbers := [p, g, q, y, x];
    }
  }

  method PutSshcomMpints(out: StrBuf, numbers: seq<Bytes>)
    requires forall x :: x in numbers ==> |x| * 8 < TWO_31
    modifies out
    ensures out.data == old(out.data) + SshcomMpints(numbers)
  {
    hide SshcomMpint;
    ghost var start := out.data;
    var i := 0;
    while i < |numbers|
      invariant 0 <= i <= |numbers|
      invariant out.data + SshcomMpints(numbers[i..]) == start + SshcomMpints(numbers)
    {
      var x := numbers[i];
      assert numbers[i..][0] == x && numbers[i..][1..] == numbers[i + 1..] && x in numbers;
      ghost var before := out.data;
      PutMpSshcomFromString(out, x);
      Assoc(before, SshcomMpint(x), SshcomMpints(numbers[i + 1..]));
      i := i + 1;
    }
    assert SshcomMpints(numbers[|numbers|..]) == [];
    assert out.data + [] == out.data;
  }

  lemma Patched(a: Bytes, b: Bytes, c: Bytes, b': Bytes)
    requires |b| == 4
    ensures var s := a + b + c; s[..|a|] + b' + s[|a| + 4..] == a + b' + c
  {
    var s := a + b + c;
    assert s[..|a|] == a && s[|a| + 4..] == c;
  }

  method PutPrefix(out: StrBuf, rsa: bool, encrypted: bool, ghost k: Key)
    requires rsa == k.Rsa? && out.data == []
    modifies out
    ensures out.data == Prefix(k, encrypted, 0)
  {
    hide Uint32, String, Ascii;
    AsciiFits(RSA_TYPE);
    AsciiFits(DSA_TYPE);
    out.PutUint32(MAGIC);
    out.PutUint32(0);
    out.PutString(Ascii(if rsa then RSA_TYPE else DSA_TYPE));
    out.PutString(Ascii(if encrypted then "3des-cbc" else "none"));
    assert [] + Uint32(MAGIC) == Uint32(MAGIC);
  }

  lemma AsciiFits(s: string)
    ensures |Ascii(s)| == |s|
  {
  }

  method PutPayload(out: StrBuf, rsa: bool, numbers: seq<Bytes>, ghost k: Key)
    requires rsa == k.Rsa? && numbers == SshcomNumbers(k) && forall x :: x in numbers ==> |x| * 8 < TWO_31
    modifies out
    ensures out.data == old(out.data) + Payload(k)
  {
    hide Uint32, SshcomMpints, SshcomNumbers;
    ghost var before := out.data;
    if !rsa {
      out.PutUint32(0);
      Assoc(before, Uint32(0), SshcomMpints(numbers));
    } else {
      assert [] + SshcomMpints(numbers) == SshcomMpints(numbers);
    }
    PutSshcomMpints(out, numbers);
  }

  lemma NumbersFit(k: Key)
    requires WellFormed(k)
    ensures forall x :: x in SshcomNumbers(k) ==> |x| * 8 < TWO_31
  {
    hide IsMpint;
    assert forall x :: x in SshcomNumbers(k) ==> x in Integers(k);
  }

  /** The blob with the lengths still zero. */
  method WriteUnpatched(rsa: bool, encrypted: bool, pub: Bytes, priv: Bytes, ghost k: Key)
    returns (out: StrBuf, lenpos: nat)
    requires WellFormed(k) && rsa == k.Rsa? && pub == PublicBlob(k) && priv == PrivateBlob(k)
    ensures fresh(out) && lenpos == |Prefix(k, encrypted, 0)|
    ensures out.data == Prefix(k, encrypted, 0) + Uint32(0) + (Uint32(0) + Payload(k))
  {
    hide Uint32, Prefix, Payload, PublicBlob, PrivateBlob, WellFormed, SshcomNumbers;
    var numbers := SshcomNumbersOf(rsa, pub, priv, k);
    NumbersFit(k);
    out := new StrBuf();
    PutPrefix(out, rsa, encrypted, k);
    lenpos := |out.data|;
    ghost var prefix := out.data;
    out.PutUint32(0);
    out.PutUint32(0);
    PutPayload(out, rsa, numbers, k);
    Assoc(prefix + Uint32(0), Uint32(0), Payload(k));
  }

  /** The writer: the whole blob with zero lengths, then padding, then the lengths patched in
      from the inside out, then the inner part encrypted in place. */
  method WriteSshcom(rsa: bool, pub: Bytes, priv: Bytes, cipher: Option<Cipher>, random: Bytes, ghost k: Key)
    returns (file: Bytes, ghost padding: Bytes)
    requires WellFormed(k) && SshcomFits(k) && rsa == k.Rsa? && pub == PublicBlob(k) && priv == PrivateBlob(k)
    requires |random| >= 8
    ensures PaddingFor(k, cipher, padding) && file == SshcomFile(k, cipher, padding)
  {
    hide Uint32, PublicBlob, PrivateBlob, WellFormed, Payload, Prefix;
    var out, lenpos := WriteUnpatched(rsa, cipher.Some?, pub, priv, k);
    ghost var prefix, payload := Prefix(k, cipher.Some?, 0), Payload(k);
    Assoc(prefix + Uint32(0), Uint32(0), payload);
    Patched(prefix + Uint32(0), Uint32(0), payload, Uint32(|payload|));
    out.PatchUint32(lenpos + 4, |out.data| - (lenpos + 8));
    assert out.data == prefix + Uint32(0) + Uint32(|payload|) + payload;
    Assoc(prefix + Uint32(0), Uint32(|payload|), payload);

    padding := [];
    if cipher.Some? {
      var n := (-(|out.data| - (lenpos + 4))) % 8;
      padding := random[..n];
      out.PutData(random[..n]);
    }
    ghost var inner := Inner(k, padding);
    assert out.data == prefix + Uint32(0) + inner;
    var cipherlen := |out.data| - (lenpos + 4);
    assert cipherlen == |inner|;
    Patched(prefix, Uint32(0), inner, Uint32(cipherlen));
    out.PatchUint32(lenpos, cipherlen);
    FinishSshcom(out, lenpos, cipher, k, inner);
    file := out.data;
  }

  method FinishSshcom(out: StrBuf, lenpos: nat, cipher: Option<Cipher>, ghost k: Key, ghost inner: Bytes)
    requires lenpos == |Prefix(k, cipher.Some?, 0)| && out.data == Prefix(k, cipher.Some?, 0) + Uint32(|inner|) + inner
    modifies out
    ensures out.data == Prefix(k, cipher.Some?, lenpos + 4 + |inner|) + Uint32(|inner|)
      + (if cipher.Some? then cipher.value.encrypt(inner) else inner)
  {
    ghost var total, size := lenpos + 4 + |inner|, Uint32(|inner|);
    PrefixParts(k, cipher.Some?, 0);
    PrefixParts(k, cipher.Some?, total);
    ghost var rest := PrefixRest(k, cipher.Some?);
    hide Uint32, Prefix, PrefixRest;
    assert out.data == Uint32(MAGIC) + Uint32(0) + (rest + (size + inner));
    Patched(Uint32(MAGIC), Uint32(0), rest + (size + inner), Uint32(total));
    out.PatchUint32(4, |out.data|);
    assert out.data == Prefix(k, cipher.Some?, total) + size + inner;
    if cipher.Some? {
      ghost var head := Prefix(k, true, total) + size;
      assert (head + inner)[..lenpos + 4] == head && (head + inner)[lenpos + 4..] == inner;
      out.data := out.data[..lenpos + 4] + cipher.value.encrypt(out.data[lenpos + 4..]);
    }
  }

  function PrefixRest(k: Key, encrypted: bool): Bytes {
    String(Ascii(if k.Rsa? then RSA_TYPE else DSA_TYPE)) + String(Ascii(if encrypted then "3des-cbc" else "none"))
  }

  lemma PrefixParts(k: Key, encrypted: bool, total: int)
    ensures Prefix(k, encrypted, total) == Uint32(MAGIC) + Uint32(total) + PrefixRest(k, encrypted)
  {
    hide Uint32, String;
  }

  // ---------------------------------------------------------------- reading

  const NOT_MAGIC := "key does not begin with magic number"
  const UNKNOWN_TYPE := "key is of unknown type"
  const UNKNOWN_CIPHER := "key encryption is of unknown type"
  const NO_DATA := "no key data found"
  const NOT_BLOCKS := "encrypted part of key is not a multiple of cipher block size"
  const BAD_CONTAINER := "containing string was ill-formed"
  const NOT_SIX := "key data did not contain six integers"
  const NOT_FIVE := "key data did not contain five integers"
  const PREDEFINED := "predefined DSA parameters not supported"

  predicate HasPrefix(s: Bytes, prefix: Bytes) {
    |s| > |prefix| && s[..|prefix|] == prefix
  }

  /** Reading n bit-counted integers one after another. */
  function TakeMpints(s: Source, n: nat): (r: (seq<Bytes>, Source))
    ensures |r.0| == n
    decreases n
  {
    if n == 0 then ([], s)
    else
      var (x, s1) := TakeMpSshcom(s);
      var (xs, s2) := TakeMpints(s1, n - 1);
      ([x] + xs, s2)
  }

  function MpintFields(xs: seq<Bytes>): Bytes {
    if xs == [] then [] else String(MpintOf(xs[0])) + MpintFields(xs[1..])
  }

  function ReadRsaNumbers(s: Source, encrypted: bool): Outcome {
    var (xs, s') := TakeMpints(s, 6);
    if s'.err then Failure(NOT_SIX, encrypted)
    else
      var e, d, n, u, p, q := xs[0], xs[1], xs[2], xs[3], xs[4], xs[5];
      Blobs(String(Ascii("ssh-rsa")) + MpintFields([e, n]), MpintFields([d, q, p, u]))
  }

  function ReadDsaNumbers(s: Source, encrypted: bool): Outcome {
    var (zero, s1) := TakeUint32(s);
    if zero != 0 then Failure(PREDEFINED, encrypted)
    else
      var (xs, s') := TakeMpints(s1, 5);
      if s'.err then Failure(NOT_FIVE, encrypted)
      else
        var p, g, q, y, x := xs[0], xs[1], xs[2], xs[3], xs[4];
        Blobs(String(Ascii("ssh-dss")) + MpintFields([p, q, g, y]), MpintFields([x]))
  }

  function ReadInner(rsa: bool, plain: Bytes, encrypted: bool): Outcome {
    var (str, s) := TakeString(Source(plain, false));
    if s.err then Failure(BAD_CONTAINER, encrypted)
    else if rsa then ReadRsaNumbers(Source(str, false), encrypted)
    else ReadDsaNumbers(Source(str, false), encrypted)
  }

  function ReadSshcomSpec(file: Bytes, cipher: Cipher): Outcome {
    var (magic, s1) := TakeUint32(Source(file, false));
    if magic != MAGIC then Failure(NOT_MAGIC, false)
    else
      var (total, s2) := TakeUint32(s1);
      var (kind, s3) := TakeString(s2);
      var rsa, dsa := HasPrefix(kind, Ascii(RSA_PREFIX)), HasPrefix(kind, Ascii(DSA_PREFIX));
      if !rsa && !dsa then Failure(UNKNOWN_TYPE, false)
      else
        var (ciphername, s4) := TakeString(s3);
        if ciphername != Ascii("none") && ciphername != Ascii("3des-cbc") then Failure(UNKNOWN_CIPHER, false)
        else
          var encrypted := ciphername != Ascii("none");
          var (text, s5) := TakeString(s4);
          if text == [] then Failure(NO_DATA, false)
          else if encrypted && |text| % 8 != 0 then Failure(NOT_BLOCKS, false)
          else ReadInner(rsa, if encrypted then cipher.decrypt(text) else text, encrypted)
  }

  method ReadSshcom(file: Bytes, cipher: Cipher) returns (r: Outcome)
    ensures r == ReadSshcomSpec(file, cipher)
  {
    hide TakeUint32, TakeString, ReadInner, Ascii;
    var src := new BinarySource(file);
    var magic := src.GetUint32();
    if magic != MAGIC {
      return Failure(NOT_MAGIC, false);
    }
    var total := src.GetUint32();
    var kind := src.GetString();
    var rsa;
    if HasPrefix(kind, Ascii(RSA_PREFIX)) {
      rsa := true;
    } else if HasPrefix(kind, Ascii(DSA_PREFIX)) {
      rsa := false;
    } else {
      return Failure(UNKNOWN_TYPE, false);
    }
    var ciphername := src.GetString();
    var encrypted;
    if ciphername == Ascii("none") {
      encrypted := false;
    } else if ciphername == Ascii("3des-cbc") {
      encrypted := true;
    } else {
      return Failure(UNKNOWN_CIPHER, false);
    }
    var text := src.GetString();
    if |text| == 0 {
      return Failure(NO_DATA, false);
    }
    if encrypted {
      if |text| % 8 != 0 {
        return Failure(NOT_BLOCKS, false);
      }
      text := cipher.decrypt(text);
    }
    r := ReadInnerBlob(rsa, text, encrypted);
  }

  method GetMpints(src: BinarySource, n: nat) returns (xs: seq<Bytes>)
    requires src.Valid()
    modifies src
    ensures src.Valid() && (xs, src.View()) == TakeMpints(old(src.View()), n) && |xs| == n
  {
    hide TakeMpSshcom;
    xs := [];
    ghost var s := src.View();
    ghost var (all, end) := TakeMpints(s, n);
    assert [] + all == all;
    var i := 0;
    while i < n
      invariant 0 <= i <= n && src.Valid() && |xs| == i
      invariant var (rest, s') := TakeMpints(src.View(), n - i); (xs + rest, s') == TakeMpints(s, n)
    {
      var x := GetMpSshcomAsString(src);
      ghost var (rest, s') := TakeMpints(src.View(), n - i - 1);
      assert xs + ([x] + rest) == xs + [x] + rest;
      xs := xs + [x];
      i := i + 1;
    }
    assert xs + [] == xs;
  }

  method PutMpintFields(blob: StrBuf, xs: seq<Bytes>)
    modifies blob
    ensures blob.data == old(blob.data) + MpintFields(xs)
  {
    hide String, MpintOf;
    ghost var start := blob.data;
    var i := 0;
    while i < |xs|
      invariant 0 <= i <= |xs| && blob.data + MpintFields(xs[i..]) == start + MpintFields(xs)
    {
      assert xs[i..][0] == xs[i] && xs[i..][1..] == xs[i + 1..];
      Assoc(blob.data, String(MpintOf(xs[i])), MpintFields(xs[i + 1..]));
      PutMpSsh2FromString(blob, xs[i]);
      i := i + 1;
    }
    assert xs[|xs|..] == [] && blob.data + [] == blob.data;
  }

  /** Both blobs in one buffer, cut at the end of the public one. */
  method BuildBlobs(name: Bytes, pub: seq<Bytes>, priv: seq<Bytes>) returns (r: Outcome)
    requires |name| < TWO_32
    ensures r == Blobs(String(name) + MpintFields(pub), MpintFields(priv))
  {
    hide String, MpintFields;
    var blob := new StrBuf();
    blob.PutString(name);
    PutMpintFields(blob, pub);
    var publen := |blob.data|;
    assert blob.data == String(name) + MpintFields(pub);
    PutMpintFields(blob, priv);
    r := Blobs(blob.data[..publen], blob.data[publen..]);
  }

  method GetRsaNumbers(src: BinarySource, encrypted: bool) returns (r: Outcome)
    requires src.Valid()
    modifies src
    ensures r == ReadRsaNumbers(old(src.View()), encrypted)
  {
    hide TakeMpints, String, MpintFields;
    AsciiFits("ssh-rsa");
    hide Ascii;
    var xs := GetMpints(src, 6);
    var e, d, n, u, p, q := xs[0], xs[1], xs[2], xs[3], xs[4], xs[5];
    if src.err {
      return Failure(NOT_SIX, encrypted);
    }
    r := BuildBlobs(Ascii("ssh-rsa"), [e, n], [d, q, p, u]);
  }

  method GetDsaNumbers(src: BinarySource, encrypted: bool) returns (r: Outcome)
    requires src.Valid()
    modifies src
    ensures r == ReadDsaNumbers(old(src.View()), encrypted)
  {
    hide TakeMpints, TakeUint32, String, MpintFields;
    AsciiFits("ssh-dss");
    hide Ascii;
    var zero := src.GetUint32();
    if zero != 0 {
      return Failure(PREDEFINED, encrypted);
    }
    var xs := GetMpints(src, 5);
    var p, g, q, y, x := xs[0], xs[1], xs[2], xs[3], xs[4];
    if src.err {
      return Failure(NOT_FIVE, encrypted);
    }
    r := BuildBlobs(Ascii("ssh-dss"), [p, q, g, y], [x]);
  }

  method ReadInnerBlob(rsa: bool, plain: Bytes, encrypted: bool) returns (r: Outcome)
    ensures r == ReadInner(rsa, plain, encrypted)
  {
    hide TakeString, ReadRsaNumbers, ReadDsaNumbers;
    var src := new BinarySource(plain);
    var str := src.GetString();
    if src.err {
      return Failure(BAD_CONTAINER, encrypted);
    }
    src := new BinarySource(str);
    if rsa {
      r := GetRsaNumbers(src, encrypted);
    } else {
      r := GetDsaNumbers(src, encrypted);
    }
  }

  // ---------------------------------------------------------------- the round trip

  lemma {:induction false} ReadMpints(xs: seq<Bytes>)
    requires forall x :: x in xs ==> |x| * 8 < TWO_31
    ensures var (r, s) := TakeMpints(Source(SshcomMpints(xs), false), |xs|);
      !s.err && |r| == |xs| && forall i :: 0 <= i < |xs| ==> r[i] == SshcomRest(xs[i])
  {
    hide TakeMpSshcom, SshcomMpint, SshcomRest;
    if xs != [] {
      ReadMpSshcom(xs[0], SshcomMpints(xs[1..]));
      ReadMpints(xs[1..]);
    }
  }

  lemma {:induction false} FieldsRestored(xs: seq<Bytes>, rs: seq<Bytes>)
    requires |xs| == |rs| && forall i :: 0 <= i < |xs| ==> IsMpint(xs[i]) && rs[i] == SshcomRest(xs[i])
    ensures MpintFields(rs) == Strings(xs)
  {
    hide String, MpintOf, SshcomRest, IsMpint;
    if xs != [] {
      SshcomKeepsMpint(xs[0]);
      MpintOfCanonical(xs[0]);
      FieldsRestored(xs[1..], rs[1..]);
    }
  }

  lemma EveryMpint(k: Key)
    requires WellFormed(k)
    ensures k.Rsa? ==> IsMpint(k.e) && IsMpint(k.n) && IsMpint(k.d) && IsMpint(k.p) && IsMpint(k.q) && IsMpint(k.iqmp)
    ensures k.Dsa? ==> IsMpint(k.p) && IsMpint(k.q) && IsMpint(k.g) && IsMpint(k.y) && IsMpint(k.x)
  {
    hide IsMpint;
    var xs := Integers(k);
    assert xs[0] in xs && xs[1] in xs && xs[2] in xs && xs[3] in xs && xs[4] in xs && (k.Rsa? ==> xs[5] in xs);
  }

  lemma PublicIs(k: Key)
    ensures PublicBlob(k) == if k.Rsa? then String(Ascii("ssh-rsa")) + Strings([k.e, k.n])
                             else String(Ascii("ssh-dss")) + Strings([k.p, k.q, k.g, k.y])
  {
    hide String, Ascii, Strings;
    if k.Rsa? {
      StringsCons(Ascii("ssh-rsa"), [k.e, k.n]);
      assert [Ascii("ssh-rsa")] + [k.e, k.n] == PublicFields(k);
    } else {
      StringsCons(Ascii("ssh-dss"), [k.p, k.q, k.g, k.y]);
      assert [Ascii("ssh-dss")] + [k.p, k.q, k.g, k.y] == PublicFields(k);
    }
  }

  lemma RsaRestored(k: Key, e: Bytes, d: Bytes, n: Bytes, u: Bytes, p: Bytes, q: Bytes)
    requires WellFormed(k) && k.Rsa?
    requires e == SshcomRest(k.e) && d == SshcomRest(k.d) && n == SshcomRest(k.n)
    requires u == SshcomRest(k.iqmp) && p == SshcomRest(k.q) && q == SshcomRest(k.p)
    ensures MpintFields([e, n]) == Strings([k.e, k.n]) && MpintFields([d, q, p, u]) == Strings([k.d, k.p, k.q, k.iqmp])
  {
    hide MpintFields, Strings, IsMpint, SshcomRest, WellFormed;
    EveryMpint(k);
    FieldsRestored([k.e, k.n], [e, n]);
    FieldsRestored([k.d, k.p, k.q, k.iqmp], [d, q, p, u]);
  }

  lemma RsaInner(k: Key, encrypted: bool)
    requires WellFormed(k) && k.Rsa?
    ensures ReadRsaNumbers(Source(SshcomMpints(SshcomNumbers(k)), false), encrypted) ==
        Blobs(PublicBlob(k), PrivateBlob(k))
  {
    hide TakeMpints, MpintFields, Strings, SshcomMpints, IsMpint, SshcomRest, String, Ascii, WellFormed, PublicBlob;
    var xs := SshcomNumbers(k);
    NumbersFit(k);
    EveryMpint(k);
    PublicIs(k);
    ReadMpints(xs);
    var (rs, s) := TakeMpints(Source(SshcomMpints(xs), false), 6);
    RsaRestored(k, rs[0], rs[1], rs[2], rs[3], rs[4], rs[5]);
  }

  lemma DsaInner(k: Key, encrypted: bool)
    requires WellFormed(k) && k.Dsa?
    ensures ReadDsaNumbers(Source(Uint32(0) + SshcomMpints(SshcomNumbers(k)), false), encrypted) ==
        Blobs(PublicBlob(k), PrivateBlob(k))
  {
    hide TakeMpints, TakeUint32, Uint32, MpintFields, Strings, SshcomMpints, IsMpint, SshcomRest, String, Ascii,
        WellFormed, PublicBlob;
    var xs := SshcomNumbers(k);
    NumbersFit(k);
    EveryMpint(k);
    PublicIs(k);
    ReadCount(0, SshcomMpints(xs));
    ReadMpints(xs);
    var (rs, s) := TakeMpints(Source(SshcomMpints(xs), false), 5);
    FieldsRestored([k.p, k.q, k.g, k.y], [rs[0], rs[2], rs[1], rs[3]]);
    FieldsRestored([k.x], [rs[4]]);
  }

  /** The inner part, with any padding after it, gives back both blobs. */
  lemma InnerRoundTrip(k: Key, padding: Bytes, encrypted: bool)
    requires WellFormed(k) && SshcomFits(k)
    ensures ReadInner(k.Rsa?, Inner(k, padding), encrypted) == Blobs(PublicBlob(k), PrivateBlob(k))
  {
    hide TakeString, ReadRsaNumbers, ReadDsaNumbers, Uint32, String, SshcomMpints, SshcomNumbers, PublicBlob,
        PrivateBlob, WellFormed;
    ReadString(Payload(k), padding);
    if k.Rsa? {
      assert Payload(k) == SshcomMpints(SshcomNumbers(k));
      RsaInner(k, encrypted);
    } else {
      DsaInner(k, encrypted);
    }
  }

  lemma {:induction false} AsciiPrefix(a: string, b: string)
    ensures Ascii(a + b) == Ascii(a) + Ascii(b)
  {
    if a == [] {
      assert a + b == b;
    } else {
      assert (a + b)[1..] == a[1..] + b;
      AsciiPrefix(a[1..], b);
    }
  }

  lemma AsciiFirst(s: string)
    requires s != []
    ensures Ascii(s) != [] && Ascii(s)[0] == s[0] as int % 256
  {
  }

  /** The key type that is written is recognised, and only as itself. */
  lemma KindRecognised(rsa: bool)
    ensures var kind := Ascii(if rsa then RSA_TYPE else DSA_TYPE);
      HasPrefix(kind, Ascii(RSA_PREFIX)) == rsa && HasPrefix(kind, Ascii(DSA_PREFIX)) == !rsa
  {
    hide Ascii;
    var kind := Ascii(if rsa then RSA_TYPE else DSA_TYPE);
    AsciiFirst(RSA_TYPE); AsciiFirst(DSA_TYPE); AsciiFirst(RSA_PREFIX); AsciiFirst(DSA_PREFIX);
    if rsa {
      AsciiPrefix(RSA_PREFIX, "-pkcs1-sha1},encrypt{rsa-pkcs1v2-oaep}}");
      Different(kind, Ascii(DSA_PREFIX));
    } else {
      AsciiPrefix(DSA_PREFIX, "-nist-sha1},dh{plain}}");
      Different(kind, Ascii(RSA_PREFIX));
    }
  }

  lemma Different(kind: Bytes, prefix: Bytes)
    requires kind != [] && prefix != [] && kind[0] != prefix[0]
    ensures !HasPrefix(kind, prefix)
  {
    if |kind| > |prefix| {
      assert kind[..|prefix|][0] != prefix[0];
    }
  }

  /** What the reader takes off the front of a written file. */
  lemma HeadReads(k: Key, encrypted: bool, total: int, text: Bytes)
    requires |text| < TWO_32
    ensures var (magic, s1) := TakeUint32(Source(Prefix(k, encrypted, total) + Uint32(|text|) + text, false));
      var (length, s2) := TakeUint32(s1);
      var (kind, s3) := TakeString(s2);
      var (name, s4) := TakeString(s3);
      && magic == MAGIC && kind == Ascii(if k.Rsa? then RSA_TYPE else DSA_TYPE)
      && name == Ascii(if encrypted then "3des-cbc" else "none") && TakeString(s4).0 == text
  {
    AsciiFits(RSA_TYPE); AsciiFits(DSA_TYPE);
    hide TakeUint32, TakeString, Ascii, Uint32, String;
    var kind, name := Ascii(if k.Rsa? then RSA_TYPE else DSA_TYPE), Ascii(if encrypted then "3des-cbc" else "none");
    var d := StringIs(text);
    var c := String(name) + d;
    var b := String(kind) + c;
    Assoc(Uint32(MAGIC) + Uint32(total), String(kind), String(name));
    Unfold(Uint32(MAGIC), Uint32(total), String(kind), String(name), Uint32(|text|), text);
    ReadCount(MAGIC, Uint32(total) + b);
    ReadUint32(total, b);
    ReadString(kind, c);
    ReadString(name, d);
    assert d + [] == d;
    ReadString(text, []);
  }

  lemma StringIs(text: Bytes) returns (d: Bytes)
    ensures d == String(text) == Uint32(|text|) + text
  {
    d := String(text);
  }

  lemma Unfold(a: Bytes, b: Bytes, c: Bytes, d: Bytes, e: Bytes, f: Bytes)
    ensures a + b + c + d + e + f == a + (b + (c + (d + (e + f))))
  {
  }

  /** Reading a written head leaves the text to be decrypted and parsed. */
  lemma BodyReads(k: Key, encrypted: bool, total: int, text: Bytes, cipher: Cipher)
    requires 0 < |text| < TWO_32 && (encrypted ==> |text| % 8 == 0)
    ensures ReadSshcomSpec(Prefix(k, encrypted, total) + Uint32(|text|) + text, cipher)
      == ReadInner(k.Rsa?, if encrypted then cipher.decrypt(text) else text, encrypted)
  {
    hide TakeUint32, TakeString, Ascii, Uint32, Prefix, ReadInner, HasPrefix;
    HeadReads(k, encrypted, total, text);
    KindRecognised(k.Rsa?);
    NamesDiffer();
  }

  /** What the writer makes, the reader takes apart again: the same public and private blobs,
      encrypted or not, whatever random padding was used. */
  lemma SshcomRoundTrip(k: Key, cipher: Option<Cipher>, reading: Cipher, padding: Bytes)
    requires WellFormed(k) && SshcomFits(k) && PaddingFor(k, cipher, padding)
    requires cipher.Some? ==> Inverts(cipher.value) && reading == cipher.value
    ensures ReadSshcomSpec(SshcomFile(k, cipher, padding), reading) == Blobs(PublicBlob(k), PrivateBlob(k))
  {
    hide Uint32, Prefix, ReadInner, ReadSshcomSpec, PublicBlob, PrivateBlob, WellFormed, SshcomFits, Inner, PaddingFor;
    var inner := Inner(k, padding);
    var text := if cipher.Some? then cipher.value.encrypt(inner) else inner;
    var total := |Prefix(k, cipher.Some?, 0)| + 4 + |inner|;
    InnerSize(k, cipher, padding);
    Encrypts(cipher, inner, text);
    BodyReads(k, cipher.Some?, total, text, reading);
    InnerRoundTrip(k, padding, cipher.Some?);
  }

  lemma Encrypts(cipher: Option<Cipher>, inner: Bytes, text: Bytes)
    requires cipher.Some? ==> Inverts(cipher.value) && |inner| % 8 == 0
    requires text == if cipher.Some? then cipher.value.encrypt(inner) else inner
    ensures |text| == |inner| && (cipher.Some? ==> cipher.value.decrypt(text) == inner)
  {
  }

  lemma NamesDiffer()
    ensures Ascii("none") != Ascii("3des-cbc")
  {
    AsciiFits("none");
    AsciiFits("3des-cbc");
  }

  lemma InnerSize(k: Key, cipher: Option<Cipher>, padding: Bytes)
    requires SshcomFits(k) && PaddingFor(k, cipher, padding)
    ensures 0 < |Inner(k, padding)| < TWO_32 && (cipher.Some? ==> |Inner(k, padding)| % 8 == 0)
  {
    hide Payload, Uint32;
    assert |Inner(k, padding)| == 4 + |Payload(k)| + |padding|;
  }
}
