/** The payload streams of the library revision (lib/.../SpritzEncrypter.java
    and SpritzDecrypter.java): a `SpritzHeader`, then the data XORed with the
    key stream of an engine that has absorbed the 64-byte payload key and
    thrown away 2048 + key[3] bytes. The library's own `SpritzHeader` and
    `SpritzCipher` are not among the sources; they are taken to be the
    java_version/SpritzCipher header and engine, with `skip(n)` as n calls of
    `drip()` and `squeezeXOR(b, off, len)` taking a length. */
module Payload {
  import opened Bytes
  import opened Sponge
  import opened Streams
  import Header
  import Kdf
  import Spritz

  /** The payload engine: the key absorbed into a fresh engine, then
      2048 + key[3] drips. */
  function PayloadEngine(key: seq<Byte>): (r: State)
    requires |key| == 64
    ensures Valid(r) && r.a == 0
  {
    Kdf.SkippedStreamReady(key, key[3]);
    Kdf.SkippedStream(key, key[3])
  }

  lemma PayloadEngineIs(key: seq<Byte>)
    requires |key| == 64
    ensures PayloadEngine(key) == Drips(AbsorbBytes(Initial(), key), 2048 + key[3] as int).0
  {
  }

  /** n key-stream bytes of engine e after its first `at` bytes. */
  function KeyFrom(e: State, at: nat, n: nat): (r: seq<Byte>)
    ensures |r| == n
  {
    Stream(Stream(e, at).0, n).1
  }

  /** The data an encrypter writes after the header for plaintext `plain`. */
  function Seal(e: State, plain: seq<Byte>): (r: seq<Byte>)
    ensures |r| == |plain|
  {
    Xor(plain, Stream(e, |plain|).1)
  }

  /** With nothing pending, squeezing, dripping and dripOne all follow the
      plain output stream, which keeps a at 0. */
  lemma ReadyOutput(st: State, n: nat)
    requires st.a == 0
    ensures Squeeze(st, n) == Stream(st, n) && Drips(st, n) == Stream(st, n)
    ensures Stream(st, n).0.a == 0
  {
    assert Prime(st) == st;
    DripsFromEmpty(st, n);
  }

  /** Sealing is the same however the plaintext is cut: the bytes of a later
      piece are XORed with the key stream that follows the earlier pieces. */
  lemma {:induction false} SealAppend(e: State, a: seq<Byte>, b: seq<Byte>)
    ensures Seal(e, a + b) == Seal(e, a) + Xor(b, KeyFrom(e, |a|, |b|))
  {
    hide Stream;
    StreamAppend(e, |a|, |b|);
    XorAppend(a, b, Stream(e, |a|).1, KeyFrom(e, |a|, |b|));
  }

  /** XORing sealed bytes at positions [at, at + n) with the key stream from
      position `at` on gives back the plaintext there. */
  lemma {:induction false} OpenSlice(e: State, plain: seq<Byte>, at: nat, n: nat)
    requires at + n <= |plain|
    ensures Xor(Seal(e, plain)[at..at + n], KeyFrom(e, at, n)) == plain[at..at + n]
  {
    hide Stream;
    var ks := Stream(e, |plain|).1;
    StreamAppend(e, at, n);
    assert Stream(e, at).1 + KeyFrom(e, at, n) == Stream(e, at + n).1;
    StreamAppend(e, at + n, |plain| - (at + n));
    assert at + n + (|plain| - (at + n)) == |plain|;
    assert ks[at..at + n] == KeyFrom(e, at, n) by {
      assert ks[..at + n] == Stream(e, at + n).1;
    }
    XorSlice(plain, ks, at, at + n);
    XorTwice(plain[at..at + n], KeyFrom(e, at, n));
  }

  /** Each byte of a sealed stream decrypts on its own too. */
  lemma OpenByte(e: State, plain: seq<Byte>, at: nat)
    requires at < |plain|
    ensures XorByte(Seal(e, plain)[at], KeyFrom(e, at, 1)[0]) == plain[at]
  {
    OpenSlice(e, plain, at, 1);
    assert Xor(Seal(e, plain)[at..at + 1], KeyFrom(e, at, 1))[0] == plain[at..at + 1][0];
  }

  /** Encrypting and decrypting with the same payload key is the identity. */
  lemma SealRoundTrip(e: State, plain: seq<Byte>)
    ensures Xor(Seal(e, plain), Stream(e, |plain|).1) == plain
  {
    XorTwice(plain, Stream(e, |plain|).1);
  }

  /** `SpritzEncrypter`: writes a header to `out`, then encrypts everything
      written through it with the payload engine. */
  class Encrypter {
    const out: Writer
    const cipher: Spritz.SpritzCipher
    /** The payload engine as it was once built. */
    ghost const e0: State
    /** What `out` held once the header was written. */
    ghost const prefix: seq<Byte>
    /** Every plaintext byte written through this stream so far. */
    ghost var plain: seq<Byte>

    /** The engine has produced one key-stream byte per plaintext byte, and
        `out` holds the header followed by the sealed plaintext: the
        ciphertext does not depend on how the writes were cut. */
    ghost predicate Valid()
      reads this, out, cipher, cipher.s
    {
      cipher.Valid() && cipher.a == 0
      && cipher.View() == Stream(e0, |plain|).0
      && out.written == prefix + Seal(e0, plain)
    }

    /** `new SpritzEncrypter(key, out)`: a fresh header (IV, check bytes and
        payload key drawn from `rnd` in that order) is written first, then the
        payload engine is built from the header's payload key. */
    constructor (pw: seq<Byte>, out: Writer, rnd: nat -> Byte)
      modifies out
      ensures Valid() && this.out == out && plain == [] && fresh(cipher) && fresh(cipher.s)
      ensures prefix == old(out.written) + Header.EncodeHeader(Header.CipherState, pw, Header.Draw(rnd, 0, 4),
                                                               Header.Draw(rnd, 4, 4), Header.Draw(rnd, 8, 64))
      ensures e0 == PayloadEngine(Header.Draw(rnd, 8, 64))
    {
      hide Header.EncodeHeader, Header.Draw, PayloadEngine;
      var payloadKey := WriteFreshHeader(out, pw, rnd);
      var c := NewPayloadEngine(payloadKey);
      this.out := out;
      cipher := c;
      e0 := c.View();
      prefix := out.written;
      plain := [];
      new;
      assert Seal(e0, []) == [];
    }

    /** An encrypter over an engine with nothing pending, for the revisions
        that write their own header to `out` first. */
    constructor Init(out: Writer, cipher: Spritz.SpritzCipher)
      requires cipher.Valid() && cipher.a == 0
      ensures Valid() && this.out == out && this.cipher == cipher && plain == []
      ensures e0 == cipher.View() && prefix == out.written
    {
      this.out := out;
      this.cipher := cipher;
      e0 := cipher.View();
      prefix := out.written;
      plain := [];
      new;
      assert Seal(e0, []) == [];
    }

    /** `write(b)`: b XOR the next key-stream byte, one byte consumed. Only
        the low eight bits of b reach the stream. */
    method WriteByte(b: int)
      requires Valid()
      modifies this, out, cipher, cipher.s
      ensures Valid() && plain == old(plain) + [b % 256]
      ensures out.written == old(out.written) + [XorByte(b % 256, KeyFrom(e0, |old(plain)|, 1)[0])]
    {
      hide Stream, Seal, KeyFrom;
      var k := DripReady(cipher);
      out.Write(XorByte(b % 256, k));
      StreamAppend(e0, |plain|, 1);
      KeyFromIs(e0, |plain|, 1);
      SealAppend(e0, plain, [b % 256]);
      plain := plain + [b % 256];
    }

    /** `write(b, off, len)`: the key stream is XORed into the caller's
        b[off..off + len) in place, that range is forwarded, and the rest of b
        is left alone. */
    method WriteRange(b: array<Byte>, off: int, len: int)
      requires Valid() && b != cipher.s
      requires 0 <= off && 0 <= len && off + len <= b.Length
      modifies this, out, cipher, cipher.s, b
      ensures Valid() && plain == old(plain) + old(b[off..off + len])
      ensures b[..] == Spritz.XorRange(old(b[..]), off, off + len, KeyFrom(e0, |old(plain)|, len))
      ensures out.written == old(out.written) + b[off..off + len]
    {
      hide Stream, Seal, KeyFrom, Spritz.XorRange, Xor;
      ghost var chunk := b[off..off + len];
      SqueezeXorReady(cipher, b, off, len);
      KeyFromIs(e0, |plain|, len);
      XorRangeSlice(old(b[..]), off, len, KeyFrom(e0, |plain|, len));
      out.WriteRange(b, off, len);
      SealedAfter(e0, prefix, plain, b[off..off + len], chunk);
      StreamAppend(e0, |plain|, len);
      plain := plain + chunk;
    }
  }

  /** Bytes that go out XORed with the key stream that follows keep the
      output sealed. */
  lemma SealedAfter(e0: State, prefix: seq<Byte>, plain: seq<Byte>, sent: seq<Byte>, chunk: seq<Byte>)
    requires sent == Xor(chunk, KeyFrom(e0, |plain|, |chunk|))
    ensures prefix + Seal(e0, plain) + sent == prefix + Seal(e0, plain + chunk)
  {
    hide Seal, Stream, KeyFrom, Xor;
    SealAppend(e0, plain, chunk);
    assert prefix + Seal(e0, plain) + sent == prefix + (Seal(e0, plain) + sent);
  }

  lemma KeyFromIs(e: State, at: nat, n: nat)
    ensures KeyFrom(e, at, n) == Stream(Stream(e, at).0, n).1
  {
  }

  /** Lines 28-30 of the encrypter: a new `SpritzHeader` written to out, and
      its payload key. */
  method WriteFreshHeader(out: Writer, pw: seq<Byte>, rnd: nat -> Byte) returns (payloadKey: array<Byte>)
    modifies out
    ensures out.written == old(out.written) + Header.EncodeHeader(Header.CipherState, pw, Header.Draw(rnd, 0, 4),
                                                                  Header.Draw(rnd, 4, 4), Header.Draw(rnd, 8, 64))
    ensures payloadKey.Length == 64 && payloadKey[..] == Header.Draw(rnd, 8, 64)
  {
    hide Header.EncodeHeader, Header.Draw;
    var header := new Header.SpritzHeader(rnd);
    header.Write(out, pw);
    payloadKey := header.GetPayloadKey();
  }

  /** `drip()` on an engine with nothing pending: the next byte of its
      output stream. */
  method DripReady(c: Spritz.SpritzCipher) returns (k: Byte)
    requires c.Valid() && c.a == 0
    modifies c, c.s
    ensures c.Valid() && c.a == 0
    ensures c.View() == Stream(old(c.View()), 1).0 && k == Stream(old(c.View()), 1).1[0]
  {
    hide Stream, Drip;
    ghost var st := c.View();
    ReadyOutput(st, 1);
    FirstOutput(st);
    k := c.Drip();
  }

  /** `squeezeXOR(b, off, len)` on an engine with nothing pending: the next
      len bytes of its output stream XORed into b[off..off + len); a length
      below zero does nothing. */
  method SqueezeXorReady(c: Spritz.SpritzCipher, b: array<Byte>, off: int, len: int)
    requires c.Valid() && c.a == 0 && b != c.s
    requires len < 0 || (0 <= off && off + len <= b.Length)
    modifies c, c.s, b
    ensures c.Valid() && c.a == 0
    ensures c.View() == Stream(old(c.View()), if len > 0 then len else 0).0
    ensures len >= 0 ==> b[..] == Spritz.XorRange(old(b[..]), off, off + len, Stream(old(c.View()), len).1)
    ensures len < 0 ==> b[..] == old(b[..])
  {
    hide Stream, Squeeze, Spritz.XorRange;
    ghost var st := c.View();
    ghost var n: nat := if len > 0 then len else 0;
    ReadyOutput(st, n);
    c.SqueezeXor(b, off, len);
    if len == 0 {
      Spritz.XorRangeEmpty(old(b[..]), off, Stream(st, 0).1);
    }
  }

  /** The payload engine of both streams: `new SpritzCipher()`,
      `absorb(payloadKey)`, `skip(2048 + (payloadKey[3] & 0xFF))`. */
  method NewPayloadEngine(payloadKey: array<Byte>) returns (c: Spritz.SpritzCipher)
    requires payloadKey.Length == 64
    ensures fresh(c) && fresh(c.s) && c.Valid()
    ensures c.View() == PayloadEngine(payloadKey[..])
  {
    hide Kdf.SkippedStream, AbsorbBytes, Drips;
    c := new Spritz.SpritzCipher();
    c.AbsorbAll(payloadKey);
    c.Skip(2048 + payloadKey[3] as int);
    PayloadEngineIs(payloadKey[..]);
  }

  /** The bytes a range XOR leaves in its range. */
  lemma XorRangeSlice(data: seq<Byte>, off: nat, len: nat, ks: seq<Byte>)
    requires off + len <= |data| && |ks| >= len
    ensures Spritz.XorRange(data, off, off + len, ks)[off..off + len] == Xor(data[off..off + len], ks)
  {
    hide Spritz.XorRange;
    assert data == data[..off] + data[off..off + len] + data[off + len..];
    Spritz.XorRangeMiddle(data[..off], data[off..off + len], data[off + len..], ks);
  }

  /** `SpritzDecrypter`: reads a header from `input`, then decrypts what it
      reads after it with the payload engine. */
  class Decrypter {
    const input: Reader
    const cipher: Spritz.SpritzCipher
    /** The payload engine as it was once built. */
    ghost const e0: State
    /** The bytes that followed the header on the input. */
    ghost const data: seq<Byte>
    /** How many of them have been read or skipped. */
    ghost var pos: nat
    /** How many key-stream bytes the engine has produced. */
    ghost var used: nat

    /** The engine has produced `used` bytes of its stream, and the input
        holds what follows the first `pos` bytes of the data. */
    ghost predicate Valid()
      reads this, input, cipher, cipher.s
    {
      cipher.Valid() && cipher.a == 0 && cipher.View() == Stream(e0, used).0
      && pos <= |data| && input.rest == data[pos..]
    }

    /** The engine is in step with the data: one key-stream byte per data
        byte consumed, which is what makes every read return plaintext. */
    ghost predicate InStep()
      reads this
    {
      used == pos
    }

    /** The fields once the header has been read and the engine built. */
    constructor Init(input: Reader, cipher: Spritz.SpritzCipher)
      requires cipher.Valid() && cipher.a == 0
      ensures this.input == input && this.cipher == cipher
      ensures e0 == cipher.View() && data == input.rest && pos == 0 && used == 0
      ensures Valid() && InStep()
    {
      this.input := input;
      this.cipher := cipher;
      e0 := cipher.View();
      data := input.rest;
      pos, used := 0, 0;
    }

    /** `read()`: -1 at the end of the input, with no key stream used;
        otherwise the byte read XOR the next key-stream byte. */
    method ReadByte() returns (r: int)
      requires Valid()
      modifies this, input, cipher, cipher.s
      ensures Valid()
      ensures old(pos) == |data| ==> r == -1 && pos == old(pos) && used == old(used)
      ensures old(pos) < |data| ==>
                r == XorByte(data[old(pos)], KeyFrom(e0, old(used), 1)[0]) && pos == old(pos) + 1 && used == old(used) + 1
      ensures old(InStep()) ==> InStep()
    {
      hide Stream, KeyFrom;
      var x := input.ReadByte();
      if x == -1 {
        return -1;
      }
      var k := DripReady(cipher);
      r := XorByte(x, k);
      StreamAppend(e0, used, 1);
      KeyFromIs(e0, used, 1);
      assert data[pos..][1..] == data[pos + 1..];
      pos, used := pos + 1, used + 1;
    }

    /** `read(b, off, len)`: the bytes the input delivers into b[off..] are
        decrypted in place, exactly as many key-stream bytes as bytes read. */
    method Read(b: array<Byte>, off: int, len: int) returns (amt: int)
      requires Valid() && b != cipher.s
      requires 0 <= off && 0 <= len && off + len <= b.Length
      modifies this, input, cipher, cipher.s, b
      ensures Valid()
      ensures amt == -1 <==> len > 0 && old(pos) == |data|
      ensures len > 0 && old(pos) < |data| ==> amt >= 1
      ensures amt < 0 ==> b[..] == old(b[..]) && pos == old(pos) && used == old(used)
      ensures amt >= 0 ==> amt <= len && pos == old(pos) + amt && used == old(used) + amt
      ensures amt >= 0 ==> b[off..off + amt] == Xor(data[old(pos)..old(pos) + amt], KeyFrom(e0, old(used), amt))
      ensures amt >= 0 ==> b[..off] == old(b[..off]) && b[off + amt..] == old(b[off + amt..])
      ensures old(InStep()) ==> InStep()
    {
      hide Stream, KeyFrom, Spritz.XorRange, Xor;
      amt := input.Read(b, off, len);
      ghost var b1 := b[..];
      SqueezeXorReady(cipher, b, off, amt);
      if amt >= 0 {
        ghost var ks := KeyFrom(e0, used, amt);
        KeyFromIs(e0, used, amt);
        StreamAppend(e0, used, amt);
        XorRangeSlice(b1, off, amt, ks);
        XorRangeOutside(b1, off, amt, ks);
        assert b1[off..off + amt] == data[pos..pos + amt];
        assert data[pos..][amt..] == data[pos + amt..];
        pos, used := pos + amt, used + amt;
      } else {
        StreamAppend(e0, used, 0);
      }
    }

    /** `read()` of the two earlier revisions: `in.read() ^ cipher.drip()`.
        `drip()` returns a signed Java byte, which `^` sign-extends, and the
        key-stream byte is consumed even at the end of the input. */
    method ReadByteSignExtended() returns (r: int)
      requires Valid()
      modifies this, input, cipher, cipher.s
      ensures Valid() && used == old(used) + 1
      ensures old(pos) == |data| ==> pos == old(pos) && r == SignedXor(-1, Signed(KeyFrom(e0, old(used), 1)[0]))
      ensures old(pos) < |data| ==>
                pos == old(pos) + 1 && r == SignedXor(data[old(pos)], Signed(KeyFrom(e0, old(used), 1)[0]))
      ensures old(InStep()) ==> (InStep() <==> old(pos) < |data|)
    {
      hide Stream, KeyFrom;
      var x := input.ReadByte();
      var k := DripReady(cipher);
      r := SignedXor(x, Signed(k));
      StreamAppend(e0, used, 1);
      KeyFromIs(e0, used, 1);
      if x != -1 {
        assert data[pos..][1..] == data[pos + 1..];
        pos := pos + 1;
      }
      used := used + 1;
    }

    /** `read(b, off, len)` of the oldest revision: its `squeezeXOR(b, off, amt)`
        takes an end index, so of the amt bytes read into b[off..] only the
        first amt - off are decrypted (none when amt <= off), with that many
        key-stream bytes. */
    method ReadEndIndex(b: array<Byte>, off: int, len: int) returns (amt: int)
      requires Valid() && b != cipher.s
      requires 0 <= off && 0 <= len && off + len <= b.Length
      modifies this, input, cipher, cipher.s, b
      ensures Valid()
      ensures amt == -1 <==> len > 0 && old(pos) == |data|
      ensures amt < 0 ==> b[..] == old(b[..]) && pos == old(pos) && used == old(used)
      ensures amt >= 0 ==> amt <= len && pos == old(pos) + amt
      ensures amt >= 0 ==>
                var n := if amt > off then amt - off else 0;
                used == old(used) + n
                && b[off..off + amt] == Spritz.XorRange(data[old(pos)..old(pos) + amt], 0, n, KeyFrom(e0, old(used), n))
      ensures amt >= 0 ==> b[..off] == old(b[..off]) && b[off + amt..] == old(b[off + amt..])
      ensures old(InStep()) && amt > 0 ==> (InStep() <==> off == 0)
    {
      hide Stream, KeyFrom, Spritz.XorRange, Xor;
      amt := input.Read(b, off, len);
      ghost var b1 := b[..];
      ghost var n: nat := if amt > off then amt - off else 0;
      SqueezeXorToReady(cipher, b, off, amt);
      if amt >= 0 {
        ghost var ks := KeyFrom(e0, used, n);
        KeyFromIs(e0, used, n);
        StreamAppend(e0, used, n);
        EndIndexWindow(b1, b[..], off, amt, n, ks);
        assert b1[off..off + amt] == data[pos..pos + amt];
        assert data[pos..][amt..] == data[pos + amt..];
        pos, used := pos + amt, used + n;
      } else {
        StreamAppend(e0, used, 0);
      }
    }

    /** `skip(n)` as written: the input skips what it can, but the engine
        drops the requested n key-stream bytes, so a short skip leaves the
        engine ahead of the data. */
    method Skip(n: int) returns (ans: int)
      requires Valid()
      modifies this, input, cipher, cipher.s
      ensures Valid()
      ensures 0 <= ans && (ans <= n || ans == 0) && pos == old(pos) + ans
      ensures used == old(used) + (if n > 0 then n else 0)
      ensures old(InStep()) ==> (InStep() <==> ans == (if n > 0 then n else 0))
    {
      hide Stream, Drips;
      ans := input.Skip(n);
      ghost var st := cipher.View();
      ghost var m: nat := if n > 0 then n else 0;
      ReadyOutput(st, m);
      cipher.Skip(n);
      StreamAppend(e0, used, m);
      assert data[pos..][ans..] == data[pos + ans..];
      pos, used := pos + ans, used + m;
    }

    /** `skip(n)` as the earlier revision writes it: the engine drops as many
        key-stream bytes as the input actually skipped. */
    method SkipInStep(n: int) returns (ans: int)
      requires Valid()
      modifies this, input, cipher, cipher.s
      ensures Valid()
      ensures 0 <= ans && (ans <= n || ans == 0) && pos == old(pos) + ans && used == old(used) + ans
      ensures old(InStep()) ==> InStep()
    {
      hide Stream, Drips;
      ans := input.Skip(n);
      ghost var st := cipher.View();
      ReadyOutput(st, ans);
      cipher.Skip(ans);
      StreamAppend(e0, used, ans);
      assert data[pos..][ans..] == data[pos + ans..];
      pos, used := pos + ans, used + ans;
    }

    /** `reset()`: always the IOException "mark/reset not supported"; nothing
        changes. */
    method Reset() returns (thrown: bool)
      ensures thrown
    {
      thrown := true;
    }

    /** `markSupported()`. */
    function MarkSupported(): (r: bool)
      ensures !r
    {
      false
    }
  }

  /** The header phase of the library decrypter and of the earlier input
      stream: the header is read and checked first, and a failure (err)
      propagates before any payload engine exists; otherwise the payload
      engine is built from the header's payload key. */
  method OpenPayloadEngine(pw: seq<Byte>, input: Reader, rnd: nat -> Byte) returns (c: Spritz.SpritzCipher?, err: Option<Header.HeaderError>)
    modifies input
    ensures input.rest == if |old(input.rest)| >= Header.HeaderSize then old(input.rest)[Header.HeaderSize..] else []
    ensures var dec := Header.DecodeHeader(Header.CipherState, pw, old(input.rest));
            && (err == None <==> dec.Opened?)
            && (dec.Short? ==> err == Some(Header.IllegalArgument))
            && (dec.BadPassword? ==> err == Some(Header.IllegalState))
            && (err != None ==> c == null)
            && (err == None ==> c != null && fresh(c) && fresh(c.s) && c.Valid() && c.View() == PayloadEngine(dec.key))
    ensures err == None ==> |old(input.rest)| >= Header.HeaderSize
  {
    hide Header.DecodeHeader, Header.CipherState, PayloadEngine;
    ghost var data := input.rest;
    var header := new Header.SpritzHeader(rnd);
    err := header.Read(input, pw);
    if err != None {
      return null, err;
    }
    if |data| < Header.HeaderSize {
      Header.ShortStreamNeverOpens(Header.CipherState, pw, data);
    }
    var payloadKey := header.GetPayloadKey();
    c := NewPayloadEngine(payloadKey);
  }

  /** `new SpritzDecrypter(key, in)`: the header phase, then a decrypter
      whose payload engine is in step with the bytes after the header. */
  method OpenDecrypter(pw: seq<Byte>, input: Reader, rnd: nat -> Byte) returns (d: Decrypter?, err: Option<Header.HeaderError>)
    modifies input
    ensures input.rest == if |old(input.rest)| >= Header.HeaderSize then old(input.rest)[Header.HeaderSize..] else []
    ensures var dec := Header.DecodeHeader(Header.CipherState, pw, old(input.rest));
            && (err == None <==> dec.Opened?)
            && (dec.Short? ==> err == Some(Header.IllegalArgument))
            && (dec.BadPassword? ==> err == Some(Header.IllegalState))
            && (err != None ==> d == null)
            && (err == None ==> d != null && fresh(d) && fresh(d.cipher) && fresh(d.cipher.s)
                                && d.Valid() && d.InStep() && d.input == input
                                && d.e0 == PayloadEngine(dec.key) && d.data == input.rest && d.pos == 0)
    ensures err == None ==> |old(input.rest)| >= Header.HeaderSize
  {
    hide Header.DecodeHeader, Header.CipherState, PayloadEngine;
    var c;
    c, err := OpenPayloadEngine(pw, input, rnd);
    if err != None {
      return null, err;
    }
    d := new Decrypter.Init(input, c);
  }

  /** What an encrypter writes for a header and a plaintext, a decrypter
      opens to the same payload engine and data that XORs back to the
      plaintext. */
  lemma StreamRoundTrip(pw: seq<Byte>, iv: seq<Byte>, check: seq<Byte>, key: seq<Byte>, plain: seq<Byte>)
    requires |iv| == 4 && |check| == 4 && |key| == 64
    ensures var written := Header.EncodeHeader(Header.CipherState, pw, iv, check, key) + Seal(PayloadEngine(key), plain);
            && Header.DecodeHeader(Header.CipherState, pw, written) == Header.Opened(iv, key)
            && Xor(written[Header.HeaderSize..], Stream(PayloadEngine(key), |plain|).1) == plain
  {
    hide Header.DecodeHeader, Header.EncodeHeader, Seal, PayloadEngine, Stream, Xor;
    Header.HeaderRoundTrip(Header.CipherState, pw, iv, check, key, Seal(PayloadEngine(key), plain));
    var h := Header.EncodeHeader(Header.CipherState, pw, iv, check, key);
    assert (h + Seal(PayloadEngine(key), plain))[Header.HeaderSize..] == Seal(PayloadEngine(key), plain);
    SealRoundTrip(PayloadEngine(key), plain);
  }

  /** A Java byte as the signed value `(int) b` gives: bytes from 128 on
      are negative. */
  function Signed(k: Byte): (r: int)
    ensures -128 <= r < 128 && (r == k || r == k - 256)
  {
    if k >= 128 then k - 256 else k
  }

  /** Java's int `^` on two values in [-256, 256): their bits above the
      eighth are all copies of the sign, so the low byte is the XOR of the
      low bytes and the result is negative exactly when one operand is. */
  function SignedXor(a: int, b: int): (r: int)
    requires -256 <= a < 256 && -256 <= b < 256
    ensures -256 <= r < 256
    ensures r < 0 <==> (a < 0 <==> b >= 0)
  {
    var low := XorByte(if a < 0 then a + 256 else a, if b < 0 then b + 256 else b);
    if (a < 0) != (b < 0) then low - 256 else low
  }

  /** What the sign-extending `read()` returns for a data byte x: the right
      byte exactly when the key-stream byte is below 128, and otherwise that
      byte minus 256, a negative value that no `InputStream.read()` may return
      for data. */
  lemma SignExtendedRead(x: Byte, k: Byte)
    ensures k < 128 ==> SignedXor(x, Signed(k)) == XorByte(x, k)
    ensures k >= 128 ==> SignedXor(x, Signed(k)) == XorByte(x, k) - 256
  {
    hide XorByte, XorBits;
  }

  /** At the end of the input, key-stream byte 0x80 turns the end marker -1
      into the data byte 127. */
  lemma SignExtendedEndLooksLikeData()
    ensures SignedXor(-1, Signed(128)) == 127
  {
    assert Pow2(8) == 256;
    XorBitsOnes(128, 8);
  }

  /** Key-stream byte 0xFF turns the data byte 0 into -1, the end marker. */
  lemma SignExtendedDataLooksLikeEnd()
    ensures SignedXor(0, Signed(255)) == -1
  {
    assert Pow2(8) == 256;
    XorBitsZero(255, 8);
  }

  /** `squeezeXOR(b, start, end)` with an end index on an engine with nothing
      pending: the next end - start bytes of its output stream XORed into
      b[start..end); an empty range does nothing. */
  method SqueezeXorToReady(c: Spritz.SpritzCipher, b: array<Byte>, start: int, end: int)
    requires c.Valid() && c.a == 0 && b != c.s
    requires end <= start || 0 <= start <= end <= b.Length
    modifies c, c.s, b
    ensures c.Valid() && c.a == 0
    ensures c.View() == Stream(old(c.View()), if end > start then end - start else 0).0
    ensures end > start ==> b[..] == Spritz.XorRange(old(b[..]), start, end, Stream(old(c.View()), end - start).1)
    ensures end <= start ==> b[..] == old(b[..])
  {
    hide Stream, Squeeze, Spritz.XorRange;
    ghost var st := c.View();
    ghost var n: nat := if end > start then end - start else 0;
    ReadyOutput(st, n);
    c.SqueezeXorTo(b, start, end);
  }

  /** A range XOR over [off, off + n) seen through the window [off, off + m)
      is the same XOR over the window's first n bytes. */
  lemma XorRangeShift(data: seq<Byte>, off: nat, m: nat, n: nat, ks: seq<Byte>)
    requires n <= m && off + m <= |data| && |ks| >= n
    ensures Spritz.XorRange(data, off, off + n, ks)[off..off + m] == Spritz.XorRange(data[off..off + m], 0, n, ks)
  {
    hide Spritz.XorRange;
    var window, shifted := Spritz.XorRange(data, off, off + n, ks)[off..off + m], Spritz.XorRange(data[off..off + m], 0, n, ks);
    forall t | 0 <= t < m
      ensures window[t] == shifted[t]
    {
      Spritz.XorRangeAt(data, off, off + n, ks, off + t);
      Spritz.XorRangeAt(data[off..off + m], 0, n, ks, t);
    }
  }

  /** The bytes a decrypter in step reads from position `at` on are the
      plaintext the data seals there. */
  lemma {:induction false} ReadSlice(e: State, data: seq<Byte>, at: nat, n: nat)
    requires at + n <= |data|
    ensures Xor(data[at..at + n], KeyFrom(e, at, n)) == Seal(e, data)[at..at + n]
  {
    var plain := Seal(e, data);
    SealRoundTrip(e, data);
    assert Seal(e, plain) == data;
    OpenSlice(e, plain, at, n);
  }

  /** The window [off, off + amt) of a buffer whose first amt - off bytes past
      off (none when amt <= off) were range-XORed with ks. */
  lemma EndIndexWindow(b1: seq<Byte>, b2: seq<Byte>, off: nat, amt: nat, n: nat, ks: seq<Byte>)
    requires off + amt <= |b1| && n == (if amt > off then amt - off else 0) && |ks| >= n
    requires amt > off ==> b2 == Spritz.XorRange(b1, off, amt, ks)
    requires amt <= off ==> b2 == b1
    ensures b2[off..off + amt] == Spritz.XorRange(b1[off..off + amt], 0, n, ks)
    ensures b2[..off] == b1[..off] && b2[off + amt..] == b1[off + amt..]
  {
    hide Spritz.XorRange;
    XorRangeShift(b1, off, amt, n, ks);
    XorRangeOutside(b1, off, n, ks);
    if amt <= off {
      assert b1 == b1[..off] + b1[off..];
      assert Spritz.XorRange(b1, off, off, ks) == b1;
    }
    assert b2[off + amt..] == b2[off + n..][amt - n..];
    assert b1[off + amt..] == b1[off + n..][amt - n..];
  }

  /** A range XOR leaves everything outside its range alone. */
  lemma XorRangeOutside(data: seq<Byte>, off: nat, len: nat, ks: seq<Byte>)
    requires off + len <= |data| && |ks| >= len
    ensures Spritz.XorRange(data, off, off + len, ks)[..off] == data[..off]
    ensures Spritz.XorRange(data, off, off + len, ks)[off + len..] == data[off + len..]
  {
    hide Spritz.XorRange;
    assert data == data[..off] + data[off..off + len] + data[off + len..];
    Spritz.XorRangeMiddle(data[..off], data[off..off + len], data[off + len..], ks);
  }
}
