/** The 76-byte header of the SpritzCipher Java revision (`SpritzHeader`):
    the IV masked with hash(32, password), then, under the engine
    `cipherStream(password, IV)` returns, four random check bytes, their 32-bit
    hash and the 64-byte payload key. Between the check bytes and the hash the
    engine throws away as many key-stream bytes as the fourth check byte says.
    The engine class this header calls is not among the sources; it is taken
    to be the iterated `cipherStream` of java_version/SpritzCipher/src, with
    `skip(n)` as n calls of `drip()`. */
module Header {
  import opened Bytes
  import opened Sponge
  import opened Streams
  import Hash
  import Kdf
  import Spritz
  import Utils

  /** `getHeaderSize()`: 12 + 64. */
  const HeaderSize := 12 + 64

  /** hash(32, data): the IV mask (over the password) and the check field's
      hash (over the check bytes). */
  function Hash32(data: seq<Byte>): (r: seq<Byte>)
    ensures |r| == 4
  {
    Hash.DigestFacts(data, [4], 4);
    Hash.ShortDigest(data, 4)
  }

  /** The 72 key-stream bytes that cover bytes 4..76 of the header: four
      squeezed bytes, then `skip` bytes dropped, then 68 squeezed bytes. */
  function HeaderPad(e: State, skip: nat): (r: seq<Byte>)
    ensures |r| == 72
  {
    Squeeze(e, 4).1 + Squeeze(Drips(Squeeze(e, 4).0, skip).0, 68).1
  }

  /** A password-and-IV key derivation that yields an engine. The header
      layout works for any of them; `cipherStream` is the one the revision
      uses. */
  type Keying = (seq<Byte>, seq<Byte>) -> State

  /** `cipherStream(password, iv)` as a Keying. The IV is always 4 bytes here;
      a shorter one (on which `cipherStream` would read past its end) is
      zero-padded to keep the Keying total. */
  function CipherState(pw: seq<Byte>, iv: seq<Byte>): (r: State)
    ensures |iv| >= 4 ==> r == Kdf.KeyedState(pw, iv)
    ensures |iv| < 4 ==> r == Kdf.KeyedState(pw, iv + Zeros(4 - |iv|))
    ensures r.a == 128 && r.w == 1
  {
    Kdf.KeyedState(pw, if |iv| >= 4 then iv else CopyOf(iv, 4))
  }

  /** The 72 bytes after the IV as `Write` encrypts them under engine e: the
      check bytes, their hash and the payload key, XORed with the pad. */
  function SealFields(e: State, check: seq<Byte>, key: seq<Byte>): (r: seq<Byte>)
    requires |check| == 4 && |key| == 64
    ensures |r| == 72
  {
    Xor(check + Hash32(check) + key, HeaderPad(e, check[3]))
  }

  /** The header `Write` produces for a given IV, check bytes and payload key. */
  function EncodeHeader(keying: Keying, pw: seq<Byte>, iv: seq<Byte>, check: seq<Byte>, key: seq<Byte>): (r: seq<Byte>)
    requires |iv| == 4 && |check| == 4 && |key| == 64
    ensures |r| == HeaderSize
  {
    Xor(iv, Hash32(pw)) + SealFields(keying(pw, iv), check, key)
  }

  /** What `Read` makes of the bytes a stream holds. `Short` is the
      IllegalArgumentException of a stream that ends inside the header, with
      what the IV field then holds; `BadPassword` is the IllegalStateException
      of a check hash that does not match, with the unmasked IV. */
  datatype Decoded =
    | Short(ivField: seq<Byte>)
    | BadPassword(iv: seq<Byte>)
    | Opened(iv: seq<Byte>, key: seq<Byte>)

  /** `Read` on the 72 bytes after the IV, under engine e: the check bytes are
      decrypted first, since their fourth byte says how much key stream lies
      between them and the rest. */
  function OpenFields(e: State, iv: seq<Byte>, fields: seq<Byte>): (r: Decoded)
    requires |fields| == 72
    ensures !r.Short?
    ensures r.Opened? ==> |r.key| == 64
  {
    var check := Xor(fields[..4], Squeeze(e, 4).1);
    var plain := Xor(fields, HeaderPad(e, check[3]));
    if Hash32(plain[..4]) != plain[4..8] then BadPassword(iv) else Opened(iv, plain[8..])
  }

  /** `Read` from the 72-byte `readFully` on, under engine e: a stream that
      ends first is the IllegalArgumentException, otherwise the 72 bytes are
      opened. */
  function FieldsOutcome(e: State, iv: seq<Byte>, rest: seq<Byte>): (r: Decoded)
    ensures r.Opened? ==> |r.key| == 64
  {
    if |rest| < 72 then Short(iv) else OpenFields(e, iv, rest[..72])
  }

  /** What `Read` makes of the bytes a stream holds, under the password and the
      key derivation that turns password and IV into an engine. */
  function DecodeHeader(keying: Keying, pw: seq<Byte>, data: seq<Byte>): (r: Decoded)
    ensures r.Opened? ==> |r.key| == 64
  {
    if |data| < 4 then Short(CopyOf(data, 4))
    else
      var iv := Xor(data[..4], Hash32(pw));
      FieldsOutcome(keying(pw, iv), iv, data[4..])
  }

  /** Under the engine that sealed them, the fields open to the payload key. */
  lemma FieldsRoundTrip(e: State, iv: seq<Byte>, check: seq<Byte>, key: seq<Byte>)
    requires |check| == 4 && |key| == 64
    ensures OpenFields(e, iv, SealFields(e, check, key)) == Opened(iv, key)
  {
    var pad := HeaderPad(e, check[3]);
    var plain := check + Hash32(check) + key;
    PadStart(e, check[3]);
    XorPrefix(plain, pad, 4);
    Fields3(check, Hash32(check), key);
    XorTwice(check, pad[..4]);
    XorTwice(plain, pad);
  }

  /** Under the password that wrote it, a header opens to the IV and payload
      key it was written with, whatever follows it on the stream. */
  lemma HeaderRoundTrip(keying: Keying, pw: seq<Byte>, iv: seq<Byte>, check: seq<Byte>, key: seq<Byte>, rest: seq<Byte>)
    requires |iv| == 4 && |check| == 4 && |key| == 64
    ensures DecodeHeader(keying, pw, EncodeHeader(keying, pw, iv, check, key) + rest) == Opened(iv, key)
  {
    hide OpenFields, SealFields, Hash32;
    var masked := Xor(iv, Hash32(pw));
    var sealed := SealFields(keying(pw, iv), check, key);
    var data := masked + sealed + rest;
    Fields3(masked, sealed, rest);
    assert data[4..][..72] == sealed;
    XorTwice(iv, Hash32(pw));
    FieldsRoundTrip(keying(pw, iv), iv, check, key);
  }

  /** The pad starts with the four bytes that cover the check field. */
  lemma PadStart(e: State, skip: nat)
    ensures HeaderPad(e, skip)[..4] == Squeeze(e, 4).1
  {
    Fields3(Squeeze(e, 4).1, Squeeze(Drips(Squeeze(e, 4).0, skip).0, 68).1, []);
  }

  /** A stream that ends before 76 bytes never yields a key. */
  lemma ShortStreamNeverOpens(keying: Keying, pw: seq<Byte>, data: seq<Byte>)
    requires |data| < HeaderSize
    ensures DecodeHeader(keying, pw, data).Short?
  {
  }

  /** `Write` squeezes the hash field and the key in two steps, `Read` squeezes
      both in one: they use the same key-stream bytes and leave the engine in
      the same state, because squeezes that follow each other continue one
      stream. */
  lemma WriterMatchesReader(e: State, skip: nat)
    ensures var e2 := Drips(Squeeze(e, 4).0, skip).0;
      Squeeze(Squeeze(e2, 4).0, 64).0 == Squeeze(e2, 68).0
      && Squeeze(e, 4).1 + Squeeze(e2, 4).1 + Squeeze(Squeeze(e2, 4).0, 64).1 == HeaderPad(e, skip)
  {
    var e2 := Drips(Squeeze(e, 4).0, skip).0;
    SqueezeAppend(e2, 4, 64);
    Concat3(Squeeze(e, 4).1, Squeeze(e2, 4).1, Squeeze(Squeeze(e2, 4).0, 64).1, Squeeze(e2, 68).1);
  }

  lemma Concat3(a: seq<Byte>, b: seq<Byte>, c: seq<Byte>, bc: seq<Byte>)
    requires b + c == bc
    ensures a + b + c == a + bc
  {
  }

  /** Where `Random.nextBytes` puts its bytes: the generator is a fixed byte
      sequence `rnd`, of which the first `from` have been handed out. */
  function Draw(rnd: nat -> Byte, from: nat, n: nat): (r: seq<Byte>)
    ensures |r| == n && forall t :: 0 <= t < n ==> r[t] == rnd(from + t)
  {
    seq(n, t requires 0 <= t < n => rnd(from + t))
  }

  /** The exceptions `Read` throws. */
  datatype HeaderError = IllegalArgument | IllegalState

  /** What a `Read` that ended with `err` reports about a stream, given the IV
      and payload key it left behind: IllegalArgumentException is a stream
      too short, IllegalStateException a check hash that did not match. */
  function Reported(err: Option<HeaderError>, iv: seq<Byte>, key: seq<Byte>): Decoded
  {
    match err
    case None => Opened(iv, key)
    case Some(IllegalArgument) => Short(iv)
    case Some(IllegalState) => BadPassword(iv)
  }

  /** `squeezeXOR(header, 0, 4)`, `skip(header[3] & 0xFF)` and
      `squeezeXOR(header, 4, 68)` on the 72 header bytes that follow the IV;
      `skip` is the decrypted fourth check byte. */
  method DecryptFields(cipher: Spritz.SpritzCipher, header: array<Byte>) returns (skip: Byte)
    requires cipher.Valid() && header.Length == 72 && header != cipher.s
    modifies cipher, cipher.s, header
    ensures cipher.Valid()
    ensures skip == Xor(old(header[..4]), Squeeze(old(cipher.View()), 4).1)[3]
    ensures header[..] == Xor(old(header[..]), HeaderPad(old(cipher.View()), skip))
  {
    ghost var e, h0 := cipher.View(), header[..];
    cipher.SqueezeXor(header, 0, 4);
    skip := header[3];
    ghost var h1 := header[..];
    SkipThenDecrypt(cipher, header);
    DecryptedFields(e, h0, h1, header[..]);
  }

  /** `skip(header[3] & 0xFF)` and `squeezeXOR(header, 4, 68)`. */
  method SkipThenDecrypt(cipher: Spritz.SpritzCipher, header: array<Byte>)
    requires cipher.Valid() && header.Length == 72 && header != cipher.s
    modifies cipher, cipher.s, header
    ensures cipher.Valid()
    ensures header[..] == Spritz.XorRange(old(header[..]), 4, 72, Squeeze(Drips(old(cipher.View()), old(header[3])).0, 68).1)
  {
    cipher.Skip(header[3]);
    cipher.SqueezeXor(header, 4, 68);
  }

  /** The two squeezes and the skip between them XOR the pad over the fields. */
  lemma DecryptedFields(e: State, h0: seq<Byte>, h1: seq<Byte>, h2: seq<Byte>)
    requires |h0| == 72 && h1 == Spritz.XorRange(h0, 0, 4, Squeeze(e, 4).1)
    requires h2 == Spritz.XorRange(h1, 4, 72, Squeeze(Drips(Squeeze(e, 4).0, h1[3]).0, 68).1)
    ensures h1[3] == Xor(h0[..4], Squeeze(e, 4).1)[3]
    ensures h2 == Xor(h0, HeaderPad(e, h1[3]))
  {
    XorInTwoRanges(h0, Squeeze(e, 4).1, Squeeze(Drips(Squeeze(e, 4).0, h1[3]).0, 68).1);
  }

  /** XORing the first 4 bytes and then the other 68 is XORing all 72. */
  lemma XorInTwoRanges(h0: seq<Byte>, k1: seq<Byte>, k2: seq<Byte>)
    requires |h0| == 72 && |k1| == 4 && |k2| == 68
    ensures Spritz.XorRange(h0, 0, 4, k1)[3] == Xor(h0[..4], k1)[3]
    ensures Spritz.XorRange(Spritz.XorRange(h0, 0, 4, k1), 4, 72, k2) == Xor(h0, k1 + k2)
  {
  }

  /** `SpritzHeader`: an IV and a payload key, each generated on first use from
      the header's random generator unless set or read first. */
  class SpritzHeader {
    /** The generator's bytes, and how many it has handed out. */
    const rnd: nat -> Byte
    var drawn: nat
    var iv: array?<Byte>
    var payloadKey: array?<Byte>

    /** The fields always hold exactly 4 and 64 bytes when present. */
    ghost predicate Valid()
      reads this
    {
      (iv != null ==> iv.Length == 4) && (payloadKey != null ==> payloadKey.Length == 64)
    }

    /** `new SpritzHeader()`: both fields empty. */
    constructor (rnd: nat -> Byte)
      ensures Valid() && this.rnd == rnd && drawn == 0
      ensures iv == null && payloadKey == null
    {
      this.rnd := rnd;
      drawn := 0;
      iv := null;
      payloadKey := null;
    }

    /** `rnd.nextBytes(new byte[n])`. */
    method NextBytes(n: nat) returns (a: array<Byte>)
      modifies this
      ensures fresh(a) && a[..] == Draw(rnd, old(drawn), n) && drawn == old(drawn) + n
      ensures iv == old(iv) && payloadKey == old(payloadKey)
    {
      a := ToArray(Draw(rnd, drawn, n));
      drawn := drawn + n;
    }

    /** `getIV()`: the stored array itself, generated (4 random bytes) only
        when there is none. */
    method GetIV() returns (r: array<Byte>)
      requires Valid()
      modifies this
      ensures Valid() && r == iv && r.Length == 4 && payloadKey == old(payloadKey)
      ensures old(iv) != null ==> r == old(iv) && drawn == old(drawn)
      ensures old(iv) == null ==> fresh(r) && r[..] == Draw(rnd, old(drawn), 4) && drawn == old(drawn) + 4
    {
      if iv == null {
        iv := NextBytes(4);
      }
      r := iv;
    }

    /** `getPayloadKey()`: the stored array, generated (64 random bytes) only
        when there is none. */
    method GetPayloadKey() returns (r: array<Byte>)
      requires Valid()
      modifies this
      ensures Valid() && r == payloadKey && r.Length == 64 && iv == old(iv)
      ensures old(payloadKey) != null ==> r == old(payloadKey) && drawn == old(drawn)
      ensures old(payloadKey) == null ==> fresh(r) && r[..] == Draw(rnd, old(drawn), 64) && drawn == old(drawn) + 64
    {
      if payloadKey == null {
        payloadKey := NextBytes(64);
      }
      r := payloadKey;
    }

    /** `setIV(iv)`: null clears the IV (the next `getIV` generates one);
        otherwise a 4-byte copy. */
    method SetIV(v: array?<Byte>)
      requires Valid()
      modifies this
      ensures Valid() && payloadKey == old(payloadKey) && drawn == old(drawn)
      ensures v == null ==> iv == null
      ensures v != null ==> fresh(iv) && iv[..] == CopyOf(v[..], 4)
    {
      if v == null {
        iv := null;
      } else {
        iv := ToArray(CopyOf(v[..], 4));
      }
    }

    /** `setPayloadKey(plk)`: a 64-byte copy. */
    method SetPayloadKey(plk: array<Byte>)
      requires Valid()
      modifies this
      ensures Valid() && iv == old(iv) && drawn == old(drawn)
      ensures fresh(payloadKey) && payloadKey[..] == CopyOf(plk[..], 64)
    {
      payloadKey := ToArray(CopyOf(plk[..], 64));
    }

    /** The payload key's bytes, empty while there is none. */
    ghost function Key(): seq<Byte>
      reads this, payloadKey
    {
      if payloadKey == null then [] else payloadKey[..]
    }

    /** `Read(in, password)`: the IV field is replaced even when reading fails;
        the payload key only once the check hash matches. */
    method Read(input: Reader, pw: seq<Byte>) returns (err: Option<HeaderError>)
      requires Valid()
      modifies this, input
      ensures Valid() && iv != null && fresh(iv) && drawn == old(drawn)
      ensures Reported(err, iv[..], Key()) == DecodeHeader(CipherState, pw, old(input.rest))
      ensures err != None ==> payloadKey == old(payloadKey)
      ensures err == None ==> fresh(payloadKey)
      ensures input.rest == if |old(input.rest)| >= HeaderSize then old(input.rest)[HeaderSize..] else []
    {
      hide FieldsOutcome, Kdf.KeyedState, Hash32;
      ghost var data := input.rest;
      var ok := ReadIv(input, pw);
      if ok {
        var ivCopy := ToArray(CopyOf(iv[..], 4));
        assert ivCopy[..] == iv[..];
        var cipher := Kdf.CipherStream(pw, ivCopy);
        err := ReadFields(input, cipher, iv[..]);
        if |data| >= HeaderSize {
          assert data[4..][72..] == data[HeaderSize..];
        }
      } else {
        err := Some(IllegalArgument);
      }
    }

    /** Lines 53-58 of `Read`: a fresh IV array filled by `readFully` and, when
        it was filled, unmasked with hash(32, password). */
    method ReadIv(input: Reader, pw: seq<Byte>) returns (ok: bool)
      requires Valid()
      modifies this, input
      ensures Valid() && iv != null && fresh(iv) && drawn == old(drawn) && payloadKey == old(payloadKey)
      ensures ok <==> |old(input.rest)| >= 4
      ensures !ok ==> iv[..] == CopyOf(old(input.rest), 4) && input.rest == []
      ensures ok ==> iv[..] == Xor(old(input.rest)[..4], Hash32(pw)) && input.rest == old(input.rest)[4..]
    {
      hide Hash.ShortDigest, Hash.Digest;
      ghost var data := input.rest;
      iv := ToArray(Zeros(4));
      var n := Utils.ReadFully(input, iv);
      ok := n == 4;
      if ok {
        var mask := Hash.DigestOf(pw, 4);
        Utils.XorInto(iv, mask);
      } else {
        assert iv[..] == data + Zeros(4 - |data|);
      }
    }

    /** The rest of `Read`, from the 72-byte `readFully` on, with the engine
        `cipherStream` returned and the unmasked IV v. */
    method ReadFields(input: Reader, cipher: Spritz.SpritzCipher, ghost v: seq<Byte>) returns (err: Option<HeaderError>)
      requires Valid() && cipher.Valid()
      modifies this, input, cipher, cipher.s
      ensures Valid() && iv == old(iv) && drawn == old(drawn)
      ensures Reported(err, v, Key()) == FieldsOutcome(old(cipher.View()), v, old(input.rest))
      ensures err != None ==> payloadKey == old(payloadKey)
      ensures err == None ==> fresh(payloadKey)
      ensures input.rest == if |old(input.rest)| >= 72 then old(input.rest)[72..] else []
    {
      hide OpenFields;
      var header := ToArray(Zeros(72));
      var n := Utils.ReadFully(input, header);
      if n == 72 {
        assert header[..] == old(input.rest)[..72];
        assert cipher.View() == old(cipher.View());
        err := CheckFields(cipher, header, v);
      } else {
        err := Some(IllegalArgument);
      }
    }

    /** Lines 66-78 of `Read`: decrypt the 72 bytes, compare the check hash and
        only then take the payload key. */
    method CheckFields(cipher: Spritz.SpritzCipher, header: array<Byte>, ghost v: seq<Byte>) returns (err: Option<HeaderError>)
      requires Valid() && cipher.Valid() && header.Length == 72 && header != cipher.s
      modifies this, cipher, cipher.s, header
      ensures Valid() && iv == old(iv) && drawn == old(drawn)
      ensures Reported(err, v, Key()) == OpenFields(old(cipher.View()), v, old(header[..]))
      ensures err != None ==> payloadKey == old(payloadKey)
      ensures err == None ==> fresh(payloadKey)
    {
      hide OpenFields, HeaderPad, Squeeze, Hash.ShortDigest;
      ghost var e, fields := cipher.View(), header[..];
      var skip := DecryptFields(cipher, header);
      var testHash := Hash.DigestOf(header[..4], 4);
      OpenFieldsIs(e, v, fields, skip, header[..]);
      if testHash[..] != header[4..8] {
        err := Some(IllegalState);
      } else {
        payloadKey := ToArray(header[8..72]);
        err := None;
      }
    }

    /** `Write(out, password)`: the IV (generated if absent), masked; then four
        fresh random check bytes and their hash, with the check's fourth byte
        worth of key stream skipped in between; then the payload key (generated
        if absent). The stored IV and key are left as they were. */
    method Write(out: Writer, pw: seq<Byte>)
      requires Valid()
      modifies this, out
      ensures Valid() && iv != null && payloadKey != null
      ensures old(iv) != null ==> iv == old(iv)
      ensures old(iv) == null ==> fresh(iv) && iv[..] == Draw(rnd, old(drawn), 4)
      ensures var at := old(drawn) + (if old(iv) == null then 4 else 0);
        && (old(payloadKey) != null ==> payloadKey == old(payloadKey))
        && (old(payloadKey) == null ==> fresh(payloadKey) && payloadKey[..] == Draw(rnd, at + 4, 64))
        && drawn == at + 4 + (if old(payloadKey) == null then 64 else 0)
        && out.written == old(out.written) + EncodeHeader(CipherState, pw, iv[..], Draw(rnd, at, 4), payloadKey[..])
    {
      hide SealFields, Kdf.KeyedState, Hash32, Xor;
      var ivArr := GetIV();
      WriteMaskedIv(out, ivArr, pw);
      var ivCopy := ToArray(CopyOf(iv[..], 4));
      assert ivCopy[..] == iv[..];
      hide CopyOf;
      var cipher := Kdf.CipherStream(pw, ivCopy);
      WriteFields(out, cipher);
    }

    /** Lines 84-86 of `Write`: a copy of the IV, masked with hash(32, password),
        written. */
    static method WriteMaskedIv(out: Writer, ivArr: array<Byte>, pw: seq<Byte>)
      requires ivArr.Length == 4
      modifies out
      ensures out.written == old(out.written) + Xor(ivArr[..], Hash32(pw))
    {
      hide Hash.ShortDigest;
      var encIv := ToArray(CopyOf(ivArr[..], 4));
      assert encIv[..] == ivArr[..];
      var mask := Hash.DigestOf(pw, 4);
      assert mask[..] == Hash32(pw);
      Utils.XorInto(encIv, mask);
      out.WriteRange(encIv, 0, 4);
      assert encIv[0..4] == encIv[..];
    }

    /** The rest of `Write`, from the random check bytes on. */
    method WriteFields(out: Writer, cipher: Spritz.SpritzCipher)
      requires Valid() && cipher.Valid() && payloadKey != cipher.s
      modifies this, out, cipher, cipher.s
      ensures Valid() && iv == old(iv) && payloadKey != null
      ensures old(payloadKey) != null ==> payloadKey == old(payloadKey)
      ensures old(payloadKey) == null ==> fresh(payloadKey) && payloadKey[..] == Draw(rnd, old(drawn) + 4, 64)
      ensures drawn == old(drawn) + 4 + (if old(payloadKey) == null then 64 else 0)
      ensures out.written == old(out.written) + SealFields(old(cipher.View()), Draw(rnd, old(drawn), 4), payloadKey[..])
    {
      hide SealFields, HeaderPad, Squeeze, Drips, Hash32;
      ghost var e, check, w0 := cipher.View(), Draw(rnd, drawn, 4), out.written;
      ghost var e2 := Drips(Squeeze(e, 4).0, check[3]).0;
      WriteCheck(out, cipher);
      WriteKey(out, cipher);
      ghost var p1, p2 := Xor(check, Squeeze(e, 4).1), Xor(Hash32(check), Squeeze(e2, 4).1);
      ghost var p3 := Xor(payloadKey[..], Squeeze(Squeeze(e2, 4).0, 64).1);
      SealedInPieces(e, check, payloadKey[..], p1, p2, p3);
      Concat3(w0, p1 + p2, p3, (p1 + p2) + p3);
      Concat3(w0, p1, p2, p1 + p2);
    }

    /** Lines 93-102 of `Write`: four random check bytes, encrypted and written,
        `toSkip` key-stream bytes dropped, then their hash encrypted and
        written. */
    method WriteCheck(out: Writer, cipher: Spritz.SpritzCipher)
      requires Valid() && cipher.Valid()
      modifies this, out, cipher, cipher.s
      ensures Valid() && cipher.Valid() && iv == old(iv) && payloadKey == old(payloadKey) && drawn == old(drawn) + 4
      ensures var check, e := Draw(rnd, old(drawn), 4), old(cipher.View());
        var e2 := Drips(Squeeze(e, 4).0, check[3]).0;
        cipher.View() == Squeeze(e2, 4).0
        && out.written == old(out.written) + Xor(check, Squeeze(e, 4).1) + Xor(Hash32(check), Squeeze(e2, 4).1)
    {
      hide Hash.ShortDigest, Squeeze, Drips;
      var randomBytes := NextBytes(4);
      ghost var check := randomBytes[..];
      var toSkip := randomBytes[3];
      var hashedBytes := Hash.DigestOf(randomBytes[..], 4);
      assert hashedBytes[..] == Hash32(check);
      hide Hash32, Draw, Xor;
      cipher.SqueezeXorAll(randomBytes);
      cipher.Skip(toSkip);
      cipher.SqueezeXorAll(hashedBytes);
      ghost var w1, w2 := randomBytes[..], hashedBytes[..];
      out.WriteRange(randomBytes, 0, 4);
      assert randomBytes[0..4] == w1;
      out.WriteRange(hashedBytes, 0, 4);
      assert hashedBytes[0..4] == w2;
    }

    /** Lines 104-106 of `Write`: a copy of the payload key (generated if
        absent), encrypted and written. */
    method WriteKey(out: Writer, cipher: Spritz.SpritzCipher)
      requires Valid() && cipher.Valid() && payloadKey != cipher.s
      modifies this, out, cipher, cipher.s
      ensures Valid() && iv == old(iv) && payloadKey != null
      ensures old(payloadKey) != null ==> payloadKey == old(payloadKey) && drawn == old(drawn)
      ensures old(payloadKey) == null ==> fresh(payloadKey) && payloadKey[..] == Draw(rnd, old(drawn), 64) && drawn == old(drawn) + 64
      ensures out.written == old(out.written) + Xor(payloadKey[..], Squeeze(old(cipher.View()), 64).1)
    {
      var pk := GetPayloadKey();
      var encKey := ToArray(CopyOf(pk[..], 64));
      assert encKey[..] == pk[..];
      cipher.SqueezeXorAll(encKey);
      out.WriteRange(encKey, 0, 64);
      assert encKey[0..64] == encKey[..];
    }
  }

  /** What `Read` computes from the decrypted fields is OpenFields. */
  lemma OpenFieldsIs(e: State, v: seq<Byte>, fields: seq<Byte>, skip: Byte, plain: seq<Byte>)
    requires |fields| == 72
    requires skip == Xor(fields[..4], Squeeze(e, 4).1)[3]
    requires plain == Xor(fields, HeaderPad(e, skip))
    ensures OpenFields(e, v, fields)
      == if Hash32(plain[..4]) != plain[4..8] then BadPassword(v) else Opened(v, plain[8..])
  {
  }

  /** `Write`'s three `squeezeXOR` outputs, one after the other, are the sealed
      fields. */
  lemma SealedInPieces(e: State, check: seq<Byte>, key: seq<Byte>, w1: seq<Byte>, w2: seq<Byte>, w3: seq<Byte>)
    requires |check| == 4 && |key| == 64
    requires w1 == Xor(check, Squeeze(e, 4).1)
    requires w2 == Xor(Hash32(check), Squeeze(Drips(Squeeze(e, 4).0, check[3]).0, 4).1)
    requires w3 == Xor(key, Squeeze(Squeeze(Drips(Squeeze(e, 4).0, check[3]).0, 4).0, 64).1)
    ensures w1 + w2 + w3 == SealFields(e, check, key)
  {
    var e2 := Drips(Squeeze(e, 4).0, check[3]).0;
    var k1, k2, k3 := Squeeze(e, 4).1, Squeeze(e2, 4).1, Squeeze(Squeeze(e2, 4).0, 64).1;
    WriterMatchesReader(e, check[3]);
    XorAppend(check, Hash32(check) + key, k1, k2 + k3);
    XorAppend(Hash32(check), key, k2, k3);
    Concat3(w1, w2, w3, w2 + w3);
    Concat3(check, Hash32(check), key, Hash32(check) + key);
    Concat3(k1, k2, k3, k2 + k3);
  }

  /** The rekey path: `Read` under the old password, `setIV(null)`, `Write`
      under the new one. The payload key survives and is wrapped again under
      a freshly drawn IV, which the new password opens. */
  method Rekey(h: SpritzHeader, input: Reader, out: Writer, oldPw: seq<Byte>, newPw: seq<Byte>) returns (err: Option<HeaderError>)
    requires h.Valid()
    modifies h, input, out
    ensures err == None <==> DecodeHeader(CipherState, oldPw, old(input.rest)).Opened?
    ensures err == None ==>
      |out.written| == |old(out.written)| + HeaderSize
      && DecodeHeader(CipherState, newPw, out.written[|old(out.written)|..]) == Opened(Draw(h.rnd, old(h.drawn), 4), DecodeHeader(CipherState, oldPw, old(input.rest)).key)
    ensures err != None ==> out.written == old(out.written)
  {
    hide DecodeHeader, EncodeHeader, CipherState;
    err := h.Read(input, oldPw);
    if err == None {
      h.SetIV(null);
      ghost var before := out.written;
      h.Write(out, newPw);
      ghost var wire := out.written[|before|..];
      assert out.written == before + wire;
      HeaderRoundTrip(CipherState, newPw, h.iv[..], Draw(h.rnd, old(h.drawn) + 4, 4), h.payloadKey[..], []);
      assert wire + [] == wire;
    }
  }
}
