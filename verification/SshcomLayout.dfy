/**
 The layout of a written ssh.com file, byte by byte: what any other reader of the format relies on.
 */
module SshcomLayout {
  import opened Marshal
  import opened Ber
  import opened KeyFiles
  import opened SshcomFiles

  /** The bit-counted form of a number: the number of its bits in 32 bits, and then its bytes, the
      highest first, as few as can be. */
  lemma MpintLayout(s: Bytes) returns (bytes: Bytes)
    requires Value(s) > 0
    ensures SshcomMpint(s) == Uint32(NumBits(Value(s))) + bytes
    ensures Value(bytes) == Value(s) && bytes != [] && bytes[0] != 0 && |bytes| == (NumBits(Value(s)) + 7) / 8
  {
    bytes := SshcomRest(s);
    SshcomKeepsMpint(s);
    BytesFromBits(bytes);
    if |bytes| == 1 {
      assert bytes[..0] == [];
    }
  }

  /** The numbers are, for RSA, e, d, n, the inverse of q, q and p; for DSA, after a zero, p, g, q, y
      and x. */
  lemma PayloadLayout(k: Key)
    ensures var m := SshcomMpint;
      Payload(k) == if k.Rsa? then m(k.e) + m(k.d) + m(k.n) + m(k.iqmp) + m(k.q) + m(k.p)
                    else [0, 0, 0, 0] + m(k.p) + m(k.g) + m(k.q) + m(k.y) + m(k.x)
  {
    Uint32Digits(0, 0, 0, 0);
    hide SshcomMpint, Uint32, SshcomMpints;
    if k.Rsa? {
      SixMpints(k.e, k.d, k.n, k.iqmp, k.q, k.p);
    } else {
      FiveMpints(Uint32(0), k.p, k.g, k.q, k.y, k.x);
    }
  }

  lemma {:induction false} MpintsLast(xs: seq<Bytes>, x: Bytes)
    ensures SshcomMpints(xs + [x]) == SshcomMpints(xs) + SshcomMpint(x)
  {
    hide SshcomMpint;
    if xs == [] {
      assert [] + [x] == [x] && [x][1..] == [];
    } else {
      assert (xs + [x])[1..] == xs[1..] + [x];
      MpintsLast(xs[1..], x);
    }
  }

  lemma OneMpint(a: Bytes)
    ensures SshcomMpints([a]) == SshcomMpint(a)
  {
    assert [a][1..] == [];
  }

  lemma FiveMpints(head: Bytes, a: Bytes, b: Bytes, c: Bytes, d: Bytes, e: Bytes)
    ensures var m := SshcomMpint; head + SshcomMpints([a, b, c, d, e]) == head + m(a) + m(b) + m(c) + m(d) + m(e)
  {
    hide SshcomMpint, SshcomMpints;
    OneMpint(a);
    assert [a] + [b] == [a, b] && [a, b] + [c] == [a, b, c];
    MpintsLast([a], b);
    MpintsLast([a, b], c);
    assert [a, b, c] + [d] == [a, b, c, d] && [a, b, c, d] + [e] == [a, b, c, d, e];
    MpintsLast([a, b, c], d);
    MpintsLast([a, b, c, d], e);
    Assoc(head, SshcomMpints([a, b, c, d]), SshcomMpint(e));
    Assoc(head, SshcomMpints([a, b, c]), SshcomMpint(d));
    Assoc(head, SshcomMpints([a, b]), SshcomMpint(c));
    Assoc(head, SshcomMpint(a), SshcomMpint(b));
  }

  lemma SixMpints(a: Bytes, b: Bytes, c: Bytes, d: Bytes, e: Bytes, f: Bytes)
    ensures var m := SshcomMpint;
      [] + SshcomMpints([a, b, c, d, e, f]) == m(a) + m(b) + m(c) + m(d) + m(e) + m(f)
  {
    hide SshcomMpint, SshcomMpints;
    FiveMpints([], a, b, c, d, e);
    assert [a, b, c, d, e] + [f] == [a, b, c, d, e, f];
    MpintsLast([a, b, c, d, e], f);
    assert [] + SshcomMpint(a) == SshcomMpint(a);
    assert [] + SshcomMpints([a, b, c, d, e]) == SshcomMpints([a, b, c, d, e]);
    assert [] + SshcomMpints([a, b, c, d, e, f]) == SshcomMpints([a, b, c, d, e, f]);
  }

  /** The file is the magic number, its own length, the type, the cipher, and the rest as a string:
      encrypted, if it is, the numbers as a string and the padding. */
  lemma FileLayout(k: Key, cipher: Option<Cipher>, padding: Bytes) returns (text: Bytes)
    requires SshcomFits(k) && PaddingFor(k, cipher, padding) && (cipher.Some? ==> Inverts(cipher.value))
    ensures var file := SshcomFile(k, cipher, padding);
      var kind := if k.Rsa? then "if-modn{sign{rsa" + "-pkcs1-sha1},encrypt{rsa-pkcs1v2-oaep}}"
                  else "dl-modp{sign{dsa" + "-nist-sha1},dh{plain}}";
      var name := if cipher.Some? then "3des-cbc" else "none";
      && file == [0x3f, 0x6f, 0xf9, 0xeb] + Uint32(|file|) + (String(Ascii(kind)) + String(Ascii(name))) + String(text)
      && (if cipher.Some? then cipher.value.decrypt(text) else text) == String(Payload(k)) + padding
  {
    var inner, encrypted := Inner(k, padding), cipher.Some?;
    text := if encrypted then cipher.value.encrypt(inner) else inner;
    InnerSize(k, cipher, padding);
    Encrypts(cipher, inner, text);
    var file := SshcomFile(k, cipher, padding);
    PrefixParts(k, encrypted, 0);
    PrefixParts(k, encrypted, |file|);
    Uint32Digits(0x3f, 0x6f, 0xf9, 0xeb);
    hide Uint32, Ascii, Payload, Inverts, PaddingFor, String, Prefix;
    assert |file| == |Prefix(k, encrypted, 0)| + 4 + |inner|;
    Assoc(Prefix(k, encrypted, |file|), Uint32(|text|), text);
    TextIs(text);
  }

  lemma TextIs(text: Bytes)
    ensures String(text) == Uint32(|text|) + text
  {
  }

  predicate Begins(kind: Bytes, prefix: string) {
    |kind| > |prefix| && kind[..|prefix|] == Ascii(prefix)
  }

  /** Any file made of such fields, whatever its length field says and whatever follows: what is read of it
      and what is refused, with which message. A refusal at this stage never blames the passphrase. */
  lemma HeadDecides(magic: int, total: int, kind: Bytes, name: Bytes, text: Bytes, tail: Bytes, cipher: Cipher)
    requires 0 <= magic < TWO_32 && |kind| < TWO_32 && |name| < TWO_32 && |text| < TWO_32
    ensures var r := ReadSshcomSpec(Uint32(magic) + (Uint32(total) + (String(kind) + (String(name) + (String(text) +
        tail)))), cipher);
      var rsa, encrypted := Begins(kind, "if-modn{sign{rsa"), name == Ascii("3des-cbc");
      if magic != 0x3f6f_f9eb then r == Failure("key does not begin with magic number", false)
      else if !rsa && !Begins(kind, "dl-modp{sign{dsa") then r == Failure("key is of unknown type", false)
      else if !encrypted && name != Ascii("none") then r == Failure("key encryption is of unknown type", false)
      else if text == [] then r == Failure("no key data found", false)
      else if encrypted && |text| % 8 != 0
      then r == Failure("encrypted part of key is not a multiple of cipher block size", false)
      else r == ReadInner(rsa, if encrypted then cipher.decrypt(text) else text, encrypted)
  {
    AsciiFits(RSA_PREFIX);
    AsciiFits(DSA_PREFIX);
    NamesDiffer();
    hide TakeUint32, TakeString, Ascii, Uint32, String, ReadInner;
    ReadUint32(magic, Uint32(total) + (String(kind) + (String(name) + (String(text) + tail))));
    ReadUint32(total, String(kind) + (String(name) + (String(text) + tail)));
    ReadString(kind, String(name) + (String(text) + tail));
    ReadString(name, String(text) + tail);
    ReadString(text, tail);
  }
}
