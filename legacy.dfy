/** The oldest generation (com/waywardcode/crypto/SpritzCipher.java and
    SpritzInputStream.java, java_version/com/waywardcode/crypto/
    SpritzOutputStream.java): a 12-byte header (the IV in clear, then four
    random check bytes and their 32-bit hash, both encrypted) under the
    one-shot `cipherStream(password, iv)` engine, which then goes on to
    encrypt the data. There is no key derivation loop and no payload key.
    The engine next to the output stream is not among the sources; it is taken
    to be this one-shot engine, which leaves the caller's IV as it is, so the
    IV written is the IV absorbed, and whose `squeezeXOR` takes an end index. */
module Legacy {
  import opened Bytes
  import opened Sponge
  import opened Streams
  import Header
  import Payload
  import Kdf
  import Hash
  import Spritz
  import Utils

  const LegacyHeaderSize := 12

  /** The engine after `cipherStream(password, iv)` has produced the eight
      key-stream bytes that cover the check field and its hash, and those
      eight bytes. */
  function HeaderKeys(pw: seq<Byte>, iv: seq<Byte>): (r: (State, seq<Byte>))
    ensures |r.1| == 8 && r.0.a == 0
  {
    SqueezeLeavesNothingPending(Kdf.OneShotState(pw, Some(iv)), 8);
    Squeeze(Kdf.OneShotState(pw, Some(iv)), 8)
  }

  /** The header `encrypt` writes for IV `iv` and check bytes `check`. */
  function EncodeHeader(pw: seq<Byte>, iv: seq<Byte>, check: seq<Byte>): (r: seq<Byte>)
    requires |iv| == 4 && |check| == 4
    ensures |r| == LegacyHeaderSize && r[..4] == iv
  {
    iv + Xor(check + Header.Hash32(check), HeaderKeys(pw, iv).1)
  }

  /** Everything `encrypt` writes for plaintext `plain`: the header, then the
      plaintext XORed with the key stream that follows the header's. */
  function Encryption(pw: seq<Byte>, iv: seq<Byte>, check: seq<Byte>, plain: seq<Byte>): (r: seq<Byte>)
    requires |iv| == 4 && |check| == 4
    ensures |r| == LegacyHeaderSize + |plain|
  {
    EncodeHeader(pw, iv, check) + Payload.Seal(HeaderKeys(pw, iv).0, plain)
  }

  /** What `decrypt` makes of a whole input: the exception it throws, or
      the plaintext it writes. */
  datatype Outcome = Rejected(err: Header.HeaderError) | Opened(plain: seq<Byte>)

  /** `decrypt`: fewer than 12 bytes is an IllegalArgumentException; a check
      field whose hash is not the hash field is an IllegalStateException;
      otherwise the rest of the input XORed with the key stream. */
  function Decryption(pw: seq<Byte>, stream: seq<Byte>): (r: Outcome)
    ensures r.Opened? ==> |stream| >= LegacyHeaderSize && |r.plain| == |stream| - LegacyHeaderSize
    ensures r == Rejected(Header.IllegalArgument) <==> |stream| < LegacyHeaderSize
  {
    if |stream| < LegacyHeaderSize then Rejected(Header.IllegalArgument)
    else
      var keys := HeaderKeys(pw, stream[..4]);
      var fields := Xor(stream[4..12], keys.1);
      if Header.Hash32(fields[..4]) != fields[4..] then Rejected(Header.IllegalState)
      else Opened(Payload.Seal(keys.0, stream[12..]))
  }

  /** `decrypt` opens what `encrypt` wrote under the same password, whatever
      the IV and check bytes. */
  lemma RoundTrip(pw: seq<Byte>, iv: seq<Byte>, check: seq<Byte>, plain: seq<Byte>)
    requires |iv| == 4 && |check| == 4
    ensures Decryption(pw, Encryption(pw, iv, check, plain)) == Opened(plain)
  {
    hide HeaderKeys, Header.Hash32;
    var stream := Encryption(pw, iv, check, plain);
    var keys := HeaderKeys(pw, iv);
    var header := EncodeHeader(pw, iv, check);
    assert stream[..4] == iv;
    assert stream[4..12] == Xor(check + Header.Hash32(check), keys.1);
    XorTwice(check + Header.Hash32(check), keys.1);
    var fields := Xor(stream[4..12], keys.1);
    assert fields[..4] == check && fields[4..] == Header.Hash32(check);
    assert stream[12..] == Payload.Seal(keys.0, plain);
    Payload.SealRoundTrip(keys.0, plain);
  }

  /** Combining sealed data with the same key stream gives the data back,
      which is why `decrypt` reuses `combine`. */
  lemma CombineTwice(e: State, data: seq<Byte>)
    ensures Payload.Seal(e, Payload.Seal(e, data)) == data
  {
    Payload.SealRoundTrip(e, data);
  }

  /** `combine(instr, outstr)` on an engine with nothing pending: reads the
      input in chunks of up to 4096 bytes, XORs each with the next key-stream
      bytes in place and writes it out. What reaches the output does not
      depend on how the input is chunked. */
  method Combine(c: Spritz.SpritzCipher, instr: Reader, out: Writer)
    requires c.Valid() && c.a == 0
    modifies c, c.s, instr, out
    ensures c.Valid() && c.a == 0
    ensures c.View() == Stream(old(c.View()), |old(instr.rest)|).0
    ensures instr.rest == []
    ensures out.written == old(out.written) + Payload.Seal(old(c.View()), old(instr.rest))
  {
    hide Spritz.SpritzCipher.View, Sponge.Valid;
    ghost var e := c.View();
    ghost var data := instr.rest;
    ghost var w0 := out.written;
    assert Stream(e, 0).0 == e && Payload.Seal(e, data[..0]) == [] && data[0..] == data;
    var buffer := new Byte[4096];
    ghost var done: nat := 0;
    assert Combined(c, out, e, data, w0, done);
    var count := NextChunk(instr, buffer, data, done);
    {
      hide Combined, Pending, Stream, Payload.Seal, Spritz.SpritzCipher.View, Spritz.SpritzCipher.Valid;
      while count >= 0
        invariant done <= |data| && buffer.Length == 4096
        invariant Combined(c, out, e, data, w0, done)
        invariant count < 0 ==> done == |data| && instr.rest == []
        invariant count >= 0 ==> 1 <= count && done + count <= |data| && instr.rest == data[done + count..]
                                 && Pending(buffer, count, data, done)
        decreases |data| - done + (if count >= 0 then 1 else 0)
      {
        CombineChunk(c, buffer, count, out, e, data, done, w0);
        done := done + count;
        count := NextChunk(instr, buffer, data, done);
      }
    }
    assert data[..done] == data;
  }

  /** What `combine` has done so far: the engine has produced one key-stream
      byte per input byte consumed, and the output has grown by those bytes
      sealed. */
  ghost predicate Combined(c: Spritz.SpritzCipher, out: Writer, e: State, data: seq<Byte>, w0: seq<Byte>, done: nat): (r: bool)
    reads c, c.s, out
    ensures r ==> |out.written| == |w0| + done
  {
    c.Valid() && c.a == 0 && done <= |data| && c.View() == Stream(e, done).0
    && out.written == w0 + Payload.Seal(e, data[..done])
  }

  /** The buffer holds the next `count` input bytes after the first `done`. */
  ghost predicate Pending(buffer: array<Byte>, count: int, data: seq<Byte>, done: nat)
    reads buffer
  {
    0 <= count <= buffer.Length && done + count <= |data| && buffer[..count] == data[done..done + count]
  }

  /** `instr.read(buffer)` on a 4096-byte buffer: -1 once the input is
      exhausted, otherwise the next 1 to 4096 bytes. */
  method NextChunk(instr: Reader, buffer: array<Byte>, ghost data: seq<Byte>, ghost done: nat) returns (count: int)
    requires buffer.Length == 4096 && done <= |data| && instr.rest == data[done..]
    modifies instr, buffer
    ensures count < 0 ==> done == |data| && instr.rest == []
    ensures count >= 0 ==> 1 <= count && done + count <= |data| && instr.rest == data[done + count..]
                           && Pending(buffer, count, data, done)
  {
    count := instr.Read(buffer, 0, 4096);
    if count >= 0 {
      assert data[done..][..count] == data[done..done + count];
      assert data[done..][count..] == data[done + count..];
    }
  }

  /** One pass of `combine`'s loop: `squeezeXOR(buffer, 0, count)` and
      `write(buffer, 0, count)` extend the sealed output by one chunk. */
  method CombineChunk(c: Spritz.SpritzCipher, buffer: array<Byte>, count: int, out: Writer,
                      ghost e: State, ghost data: seq<Byte>, ghost done: nat, ghost w0: seq<Byte>)
    requires Combined(c, out, e, data, w0, done) && Pending(buffer, count, data, done) && buffer != c.s
    modifies c, c.s, buffer, out
    ensures Combined(c, out, e, data, w0, done + count)
  {
    hide Stream, Payload.Seal, Payload.KeyFrom, Xor, Sponge.Valid, Spritz.SpritzCipher.View;
    WriteChunk(c, buffer, count, out, e, data, done);
    SealedChunk(e, data, done, count, w0);
  }

  /** The sealed output for the first `done` bytes, followed by the next
      `count` bytes XORed with the key stream from `done` on, is the sealed
      output for the first `done + count` bytes. */
  lemma SealedChunk(e: State, data: seq<Byte>, done: nat, count: nat, w0: seq<Byte>)
    requires done + count <= |data|
    ensures w0 + Payload.Seal(e, data[..done]) + Xor(data[done..done + count], Payload.KeyFrom(e, done, count))
            == w0 + Payload.Seal(e, data[..done + count])
  {
    hide Payload.Seal, Stream, Payload.KeyFrom, Xor;
    Payload.SealAppend(e, data[..done], data[done..done + count]);
    assert data[..done + count] == data[..done] + data[done..done + count];
  }

  /** The key-stream step of `CombineChunk`: the chunk goes out XORed with
      the key stream from position `done` on. */
  method WriteChunk(c: Spritz.SpritzCipher, buffer: array<Byte>, count: int, out: Writer,
                    ghost e: State, ghost data: seq<Byte>, ghost done: nat)
    requires c.Valid() && c.a == 0 && buffer != c.s
    requires 0 <= count <= buffer.Length && done + count <= |data|
    requires c.View() == Stream(e, done).0 && buffer[..count] == data[done..done + count]
    modifies c, c.s, buffer, out
    ensures c.Valid() && c.a == 0 && c.View() == Stream(e, done + count).0
    ensures out.written == old(out.written) + Xor(data[done..done + count], Payload.KeyFrom(e, done, count))
  {
    hide Stream, Payload.KeyFrom, Spritz.XorRange, Xor;
    ghost var chunk := buffer[..count];
    Payload.SqueezeXorToReady(c, buffer, 0, count);
    Payload.KeyFromIs(e, done, count);
    StreamAppend(e, done, count);
    if count > 0 {
      Payload.XorRangeSlice(old(buffer[..]), 0, count, Payload.KeyFrom(e, done, count));
      assert old(buffer[..])[0..count] == chunk;
    } else {
      assert buffer[0..0] == [];
    }
    out.WriteRange(buffer, 0, count);
  }

  /** The eight header key-stream bytes are the four that cover the check
      field followed by the four that cover its hash. */
  lemma HeaderKeysSplit(pw: seq<Byte>, iv: seq<Byte>, f1: seq<Byte>, f2: seq<Byte>)
    requires |f1| == 4 && |f2| == 4
    ensures var st := Kdf.OneShotState(pw, Some(iv));
            && HeaderKeys(pw, iv).0 == Squeeze(Squeeze(st, 4).0, 4).0
            && Xor(f1 + f2, HeaderKeys(pw, iv).1) == Xor(f1, Squeeze(st, 4).1) + Xor(f2, Squeeze(Squeeze(st, 4).0, 4).1)
  {
    var st := Kdf.OneShotState(pw, Some(iv));
    SqueezeAppend(st, 4, 4);
    XorAppend(f1, f2, Squeeze(st, 4).1, Squeeze(Squeeze(st, 4).0, 4).1);
  }

  /** `squeezeXOR(randomBytes); squeezeXOR(hash)` on the engine
      `cipherStream(password, iv)`: both four-byte fields XORed with the
      header's eight key-stream bytes, in that order. */
  method SqueezeFields(c: Spritz.SpritzCipher, f1: array<Byte>, f2: array<Byte>, ghost pw: seq<Byte>, ghost iv: seq<Byte>)
    requires c.Valid() && c.View() == Kdf.OneShotState(pw, Some(iv))
    requires f1.Length == 4 && f2.Length == 4 && f1 != f2 && f1 != c.s && f2 != c.s
    modifies c, c.s, f1, f2
    ensures c.Valid() && c.a == 0 && c.View() == HeaderKeys(pw, iv).0
    ensures f1[..] + f2[..] == Xor(old(f1[..]) + old(f2[..]), HeaderKeys(pw, iv).1)
  {
    hide Squeeze, Xor, HeaderKeys, Kdf.OneShotState;
    ghost var st := c.View();
    c.SqueezeXorAll(f1);
    ghost var f1New := f1[..];
    c.SqueezeXorAll(f2);
    assert f1[..] == f1New;
    HeaderKeysSplit(pw, iv, old(f1[..]), old(f2[..]));
    assert c.View().a == HeaderKeys(pw, iv).0.a;
  }

  /** The header phase of `decrypt` and of the input stream's constructor:
      four IV bytes, then the check field and its hash, each read in full
      (a short read is an IllegalArgumentException); both fields are
      decrypted with consecutive key-stream bytes and a hash mismatch is an
      IllegalStateException. On success the engine is left ready for the
      data that follows. */
  method ReadHeader(pw: seq<Byte>, input: Reader) returns (c: Spritz.SpritzCipher?, err: Option<Header.HeaderError>)
    modifies input
    ensures var r := Decryption(pw, old(input.rest));
            && (err == None <==> r.Opened?)
            && (err != None ==> c == null && r == Rejected(err.value))
    ensures err == None ==> |old(input.rest)| >= LegacyHeaderSize && input.rest == old(input.rest)[LegacyHeaderSize..]
    ensures err == None ==> c != null && fresh(c) && fresh(c.s) && c.Valid() && c.a == 0
                            && c.View() == HeaderKeys(pw, old(input.rest)[..4]).0
  {
    hide Decryption, HeaderKeys, Kdf.OneShotState, Xor, Header.Hash32;
    ghost var stream := input.rest;
    var iv, randomBytes, randomHash, ok := ReadFields(input);
    if !ok {
      ShortHeader(pw, stream);
      return null, Some(Header.IllegalArgument);
    }
    c := Kdf.OneShotCipherStream(pw, iv);
    SqueezeFields(c, randomBytes, randomHash, pw, iv[..]);
    var testHash := Hash.DigestOf(randomBytes[..], 4);
    DecryptionFields(pw, stream, randomBytes[..], randomHash[..]);
    if testHash[..] != randomHash[..] {
      return null, Some(Header.IllegalState);
    }
    err := None;
  }

  /** The three `readFully` calls of the header phase: the IV, the check
      field and its hash, four bytes each; `ok` is false when any of them
      comes up short, which happens exactly when the input is shorter than
      the header. */
  method ReadFields(input: Reader) returns (iv: array<Byte>, randomBytes: array<Byte>, randomHash: array<Byte>, ok: bool)
    modifies input
    ensures fresh(iv) && fresh(randomBytes) && fresh(randomHash) && randomBytes != randomHash
    ensures iv.Length == 4 && randomBytes.Length == 4 && randomHash.Length == 4
    ensures ok <==> |old(input.rest)| >= LegacyHeaderSize
    ensures ok ==> iv[..] == old(input.rest)[..4] && randomBytes[..] + randomHash[..] == old(input.rest)[4..12]
                   && input.rest == old(input.rest)[LegacyHeaderSize..]
  {
    ghost var stream := input.rest;
    iv := new Byte[4];
    randomBytes := new Byte[4];
    randomHash := new Byte[4];
    var n := Utils.ReadFully(input, iv);
    if n != 4 {
      return iv, randomBytes, randomHash, false;
    }
    assert input.rest == stream[4..];
    n := Utils.ReadFully(input, randomBytes);
    if n != 4 {
      return iv, randomBytes, randomHash, false;
    }
    assert randomBytes[..] == randomBytes[..4] == stream[4..][..4] == stream[4..8];
    assert input.rest == stream[4..][4..] == stream[8..];
    n := Utils.ReadFully(input, randomHash);
    if n != 4 {
      return iv, randomBytes, randomHash, false;
    }
    assert randomHash[..] == randomHash[..4] == stream[8..][..4] == stream[8..12];
    assert input.rest == stream[8..][4..] == stream[12..];
    assert stream[4..12] == stream[4..8] + stream[8..12];
    ok := true;
  }

  /** An input shorter than the header is an IllegalArgumentException. */
  lemma ShortHeader(pw: seq<Byte>, stream: seq<Byte>)
    requires |stream| < LegacyHeaderSize
    ensures Decryption(pw, stream) == Rejected(Header.IllegalArgument)
  {
  }

  /** How `Decryption` decides on a complete header whose fields decrypt to
      `check` and `hash`. */
  lemma DecryptionFields(pw: seq<Byte>, stream: seq<Byte>, check: seq<Byte>, hash: seq<Byte>)
    requires |stream| >= LegacyHeaderSize && |check| == 4 && |hash| == 4
    requires check + hash == Xor(stream[4..12], HeaderKeys(pw, stream[..4]).1)
    ensures Decryption(pw, stream) == if Hash.ShortDigest(check, 4) != hash then Rejected(Header.IllegalState)
                                      else Opened(Payload.Seal(HeaderKeys(pw, stream[..4]).0, stream[12..]))
  {
    assert (check + hash)[..4] == check && (check + hash)[4..] == hash;
  }

  /** The header phase of `encrypt` and of the output stream's constructor:
      the IV and then the check bytes are drawn from `rnd`, the IV goes out
      in clear, and the check bytes and their hash go out encrypted. */
  method WriteHeader(pw: seq<Byte>, out: Writer, rnd: nat -> Byte) returns (c: Spritz.SpritzCipher)
    modifies out
    ensures fresh(c) && fresh(c.s) && c.Valid() && c.a == 0
    ensures c.View() == HeaderKeys(pw, Header.Draw(rnd, 0, 4)).0
    ensures out.written == old(out.written) + EncodeHeader(pw, Header.Draw(rnd, 0, 4), Header.Draw(rnd, 4, 4))
  {
    c := WriteHeaderOf(pw, out, Header.Draw(rnd, 0, 4), Header.Draw(rnd, 4, 4));
  }

  /** The header phase for a given iv and given check bytes. */
  method WriteHeaderOf(pw: seq<Byte>, out: Writer, iv: seq<Byte>, check: seq<Byte>) returns (c: Spritz.SpritzCipher)
    requires |iv| == 4 && |check| == 4
    modifies out
    ensures fresh(c) && fresh(c.s) && c.Valid() && c.a == 0
    ensures c.View() == HeaderKeys(pw, iv).0
    ensures out.written == old(out.written) + EncodeHeader(pw, iv, check)
  {
    hide HeaderKeys, Kdf.OneShotState, Xor, Header.Hash32, Sponge.Valid, Spritz.SpritzCipher.View, Spritz.SpritzCipher.Valid;
    c := StartHeader(pw, out, iv);
    WriteCheck(c, out, pw, iv, check);
    assert out.written == old(out.written) + (iv + Xor(check + Header.Hash32(check), HeaderKeys(pw, iv).1));
  }

  /** The start of the header phase: the engine keyed with the password and
      the iv, and the iv written out in the clear. */
  method StartHeader(pw: seq<Byte>, out: Writer, iv: seq<Byte>) returns (c: Spritz.SpritzCipher)
    modifies out
    ensures fresh(c) && fresh(c.s) && c.Valid() && c.View() == Kdf.OneShotState(pw, Some(iv))
    ensures out.written == old(out.written) + iv
  {
    hide Kdf.OneShotState, Sponge.Valid, Spritz.SpritzCipher.View;
    var ivBytes := ToArray(iv);
    c := Kdf.OneShotCipherStream(pw, ivBytes);
    WriteIv(out, ivBytes);
  }

  /** The check part of the header phase: the check bytes and their hash,
      both encrypted with the header's key stream, go out in that order. */
  method WriteCheck(c: Spritz.SpritzCipher, out: Writer, ghost pw: seq<Byte>, ghost iv: seq<Byte>, check: seq<Byte>)
    requires c.Valid() && c.View() == Kdf.OneShotState(pw, Some(iv)) && |check| == 4
    modifies c, c.s, out
    ensures c.Valid() && c.a == 0 && c.View() == HeaderKeys(pw, iv).0
    ensures out.written == old(out.written) + Xor(check + Header.Hash32(check), HeaderKeys(pw, iv).1)
  {
    hide HeaderKeys, Kdf.OneShotState, Xor, Sponge.Valid;
    var randomBytes := ToArray(check);
    var hashedBytes := Hash.DigestOf(randomBytes[..], 4);
    SqueezeFields(c, randomBytes, hashedBytes, pw, iv);
    WriteBoth(out, randomBytes, hashedBytes);
  }

  /** `outstr.write(iv)`. */
  method WriteIv(out: Writer, iv: array<Byte>)
    modifies out
    ensures out.written == old(out.written) + iv[..]
  {
    out.WriteRange(iv, 0, iv.Length);
    assert iv[0..iv.Length] == iv[..];
  }

  /** `outstr.write(randomBytes); outstr.write(hashedBytes)`. */
  method WriteBoth(out: Writer, f1: array<Byte>, f2: array<Byte>)
    modifies out
    ensures out.written == old(out.written) + (f1[..] + f2[..])
  {
    out.WriteRange(f1, 0, f1.Length);
    out.WriteRange(f2, 0, f2.Length);
    assert f1[0..f1.Length] == f1[..] && f2[0..f2.Length] == f2[..];
  }

  /** `encrypt(key, instr, outstr)`: the header, then the whole input
      combined with the key stream that follows it. */
  method Encrypt(pw: seq<Byte>, instr: Reader, out: Writer, rnd: nat -> Byte)
    modifies instr, out
    ensures instr.rest == []
    ensures out.written == old(out.written) + Encryption(pw, Header.Draw(rnd, 0, 4), Header.Draw(rnd, 4, 4), old(instr.rest))
  {
    hide HeaderKeys, EncodeHeader, Payload.Seal;
    var c := WriteHeader(pw, out, rnd);
    Combine(c, instr, out);
  }

  /** `decrypt(key, instr, outstr)`: the header phase, whose exceptions
      leave the output untouched, then the rest of the input combined with
      the key stream. */
  method Decrypt(pw: seq<Byte>, instr: Reader, out: Writer) returns (err: Option<Header.HeaderError>)
    modifies instr, out
    ensures var r := Decryption(pw, old(instr.rest));
            && (err == None <==> r.Opened?)
            && (err != None ==> r == Rejected(err.value) && out.written == old(out.written))
            && (err == None ==> out.written == old(out.written) + r.plain && instr.rest == [])
  {
    hide HeaderKeys, Payload.Seal, Xor, Header.Hash32;
    var c;
    c, err := ReadHeader(pw, instr);
    if err != None {
      return;
    }
    Combine(c, instr, out);
  }

  /** `new SpritzInputStream(key, in)`: the header phase; on success a
      decrypter over what follows the header, whose engine is in step with
      it. Its `read()`, `read(b, off, len)`, `skip`, `reset` and
      `markSupported` are `Payload.Decrypter.ReadByteSignExtended`,
      `ReadEndIndex`, `SkipInStep`, `Reset` and `MarkSupported`. */
  method OpenInput(pw: seq<Byte>, input: Reader) returns (d: Payload.Decrypter?, err: Option<Header.HeaderError>)
    modifies input
    ensures var r := Decryption(pw, old(input.rest));
            && (err == None <==> r.Opened?)
            && (err != None ==> d == null && r == Rejected(err.value))
            && (err == None ==> d != null && fresh(d) && fresh(d.cipher) && fresh(d.cipher.s)
                                && d.Valid() && d.InStep() && d.input == input && d.pos == 0
                                && d.data == input.rest && Payload.Seal(d.e0, d.data) == r.plain)
  {
    hide HeaderKeys, Payload.Seal, Xor, Header.Hash32;
    var c;
    c, err := ReadHeader(pw, input);
    if err != None {
      return null, err;
    }
    d := new Payload.Decrypter.Init(input, c);
  }

  /** `write(b, 1, 1)` on a sealed stream: the end index 1 equals the start,
      so the byte x goes out as it is. The sealed stream for the same
      plaintext ends with x XOR the next key-stream byte instead, so the two
      differ whenever that byte is not zero. */
  lemma EndIndexWriteUnsealed(e0: State, prefix: seq<Byte>, plain: seq<Byte>, x: Byte)
    requires Payload.KeyFrom(e0, |plain|, 1)[0] != 0
    ensures prefix + Payload.Seal(e0, plain) + [x] != prefix + Payload.Seal(e0, plain + [x])
  {
    var k := Payload.KeyFrom(e0, |plain|, 1);
    Payload.SealAppend(e0, plain, [x]);
    assert Xor([x], k) == [XorByte(x, k[0])];
    XorByteFixed(x, k[0]);
    var sealed := prefix + Payload.Seal(e0, plain + [x]);
    assert sealed[|sealed| - 1] == XorByte(x, k[0]);
  }

  /** `SpritzOutputStream` of this generation
      (java_version/com/waywardcode/crypto/SpritzOutputStream.java): the
      header, then every write encrypted with the engine
      `cipherStream(password, iv)`, whose `squeezeXOR(buf, start, end)` takes
      an end index. */
  class OutputStream {
    const out: Writer
    const cipher: Spritz.SpritzCipher
    /** The engine once the header was written. */
    ghost const e0: State
    /** What `out` held once the header was written. */
    ghost const prefix: seq<Byte>
    /** Every byte passed to a write, in order. */
    ghost var plain: seq<Byte>
    /** How many key-stream bytes the engine has produced since the header. */
    ghost var used: nat

    /** The engine has produced `used` bytes of its stream. */
    ghost predicate Valid()
      reads this, cipher, cipher.s
    {
      cipher.Valid() && cipher.a == 0 && cipher.View() == Stream(e0, used).0
    }

    /** Every byte written so far went out XORed with its own key-stream
        byte: `out` holds the header followed by the sealed plaintext. */
    ghost predicate Sealed()
      reads this, out
    {
      used == |plain| && out.written == prefix + Payload.Seal(e0, plain)
    }

    constructor (pw: seq<Byte>, out: Writer, rnd: nat -> Byte)
      modifies out
      ensures Valid() && Sealed() && this.out == out && plain == [] && fresh(cipher) && fresh(cipher.s)
      ensures prefix == old(out.written) + EncodeHeader(pw, Header.Draw(rnd, 0, 4), Header.Draw(rnd, 4, 4))
      ensures e0 == HeaderKeys(pw, Header.Draw(rnd, 0, 4)).0
    {
      hide HeaderKeys, EncodeHeader, Header.Draw, Kdf.OneShotState, Sponge.Valid;
      var c := WriteHeader(pw, out, rnd);
      this.out := out;
      cipher := c;
      e0 := c.View();
      prefix := out.written;
      plain := [];
      used := 0;
      new;
      assert Payload.Seal(e0, []) == [];
    }

    /** `write(b)`: `b ^ drip()` goes out. `drip()` returns a signed byte,
        but only the low eight bits reach the stream, and those are
        (b & 0xFF) XOR the key-stream byte. */
    method WriteByte(b: int)
      requires Valid()
      modifies this, out, cipher, cipher.s
      ensures Valid() && plain == old(plain) + [b % 256] && used == old(used) + 1
      ensures out.written == old(out.written) + [XorByte(b % 256, Payload.KeyFrom(e0, old(used), 1)[0])]
      ensures old(Sealed()) ==> Sealed()
    {
      hide Stream, Payload.Seal, Payload.KeyFrom;
      var k := Payload.DripReady(cipher);
      out.Write(XorByte(b % 256, k));
      StreamAppend(e0, used, 1);
      Payload.KeyFromIs(e0, used, 1);
      Payload.SealAppend(e0, plain, [b % 256]);
      plain := plain + [b % 256];
      used := used + 1;
    }

    /** `write(b, off, len)` as written: `squeezeXOR(b, off, len)` treats
        len as an end index, so the key stream goes into b[off..len), not
        b[off..off + len), and then b[off..off + len) is forwarded. Only
        with off == 0 does the output stay sealed; with off >= len the
        bytes go out in clear and no key stream is used. */
    method WriteRangeEndIndex(b: array<Byte>, off: int, len: int)
      requires Valid() && b != cipher.s
      requires 0 <= off && 0 <= len && off + len <= b.Length
      modifies this, out, cipher, cipher.s, b
      ensures Valid() && plain == old(plain) + old(b[off..off + len])
      ensures used == old(used) + (if len > off then len - off else 0)
      ensures len > off ==> b[..] == Spritz.XorRange(old(b[..]), off, len, Payload.KeyFrom(e0, old(used), len - off))
      ensures len <= off ==> b[..] == old(b[..])
      ensures out.written == old(out.written) + b[off..off + len]
      ensures old(Sealed()) && off == 0 ==> Sealed()
    {
      hide Stream, Payload.Seal, Payload.KeyFrom, Spritz.XorRange, Xor;
      ghost var chunk := b[off..off + len];
      ghost var n: nat := if len > off then len - off else 0;
      ghost var wasSealed := Sealed();
      Payload.SqueezeXorToReady(cipher, b, off, len);
      out.WriteRange(b, off, len);
      Payload.KeyFromIs(e0, used, n);
      StreamAppend(e0, used, n);
      if off == 0 && wasSealed {
        if len > 0 {
          Payload.XorRangeSlice(old(b[..]), 0, len, Payload.KeyFrom(e0, used, len));
        }
        assert b[0..len] == Xor(chunk, Payload.KeyFrom(e0, used, len));
        Payload.SealedAfter(e0, prefix, plain, b[0..len], chunk);
      }
      plain := plain + chunk;
      used := used + n;
    }
  }
}
