/** The container the two later Java generations build on the payload
    stream: after the header come one name-length byte and the stored name,
    then the body, all under one key stream. The newest revision
    (SpritzOutputStream/SpritzInputStream under src/main/java) goes through
    a `SpritzEncrypter`/`SpritzDecrypter` and compresses the body; the
    earlier one (under src/com) inlines the same header and payload engine
    and frames the name itself. The compressed body is opaque bytes here. */
module Container {
  import opened Bytes
  import opened Sponge
  import opened Streams
  import Header
  import Payload
  import Paths
  import Spritz
  import Utils

  /** '/' in UTF-8. */
  const Slash: Byte := 47

  /** The bytes stored for a name hint: the last path component of the
      hint's UTF-8 bytes (`new File(n).getName()`), or nothing without a
      hint. */
  function StoredName(hint: Option<seq<Byte>>): (r: seq<Byte>)
    ensures Slash !in r
    ensures hint.None? ==> r == []
    ensures hint.Some? ==> |r| <= |hint.value| && r == hint.value[|hint.value| - |r|..]
    ensures hint.Some? && |r| < |hint.value| ==> hint.value[|hint.value| - |r| - 1] == Slash
  {
    match hint
    case None => []
    case Some(n) => Paths.Basename(n, Slash)
  }

  /** The plaintext frame in front of the body: the name's length as one
      byte (its low eight bits, which is what `write(int)` keeps), then the
      name. */
  function FrameName(name: seq<Byte>): (r: seq<Byte>)
    ensures |r| == |name| + 1 && r[1..] == name
    ensures |name| < 256 ==> r[0] == |name|
  {
    [|name| % 256] + name
  }

  /** What a reader of the container ends with: an error, or the stored name
      (none when its length byte is 0) and the body after it. */
  datatype Outcome = Failed(err: Header.HeaderError) | Parsed(name: Option<seq<Byte>>, body: seq<Byte>)

  function NameBytes(name: Option<seq<Byte>>): seq<Byte>
  {
    match name
    case None => []
    case Some(n) => n
  }

  /** The name-frame parsing of the input streams, on the plaintext after
      the header: no byte at all is an IllegalArgumentException; a length
      byte of 0 means no name; fewer name bytes than the length byte says is
      an IllegalStateException. Whatever parses is a frame followed by the
      body, and a parsed name is never empty. */
  function ParseName(plain: seq<Byte>): (r: Outcome)
    ensures r.Parsed? ==> FrameName(NameBytes(r.name)) + r.body == plain
    ensures r.Parsed? && r.name.Some? ==> r.name.value != []
    ensures r.Failed? ==> (r.err == Header.IllegalArgument <==> plain == [])
  {
    if plain == [] then Failed(Header.IllegalArgument)
    else if plain[0] == 0 then Parsed(None, plain[1..])
    else if |plain| - 1 < plain[0] then Failed(Header.IllegalState)
    else Parsed(Some(plain[1..1 + plain[0]]), plain[1 + plain[0]..])
  }

  /** Parsing inverts the framing for every name shorter than 256 bytes; an
      empty name comes back as no name. */
  lemma NameRoundTrip(name: seq<Byte>, body: seq<Byte>)
    requires |name| < 256
    ensures ParseName(FrameName(name) + body) == Parsed(if name == [] then None else Some(name), body)
  {
    var p := FrameName(name) + body;
    assert p[1..] == name + body;
    assert p[1..1 + |name|] == name && p[1 + |name|..] == body;
  }

  /** A name of exactly 256 bytes has length byte 0: the reader finds no
      name and takes the name bytes for the start of the body. */
  lemma LongNameLost(name: seq<Byte>, body: seq<Byte>)
    requires |name| == 256
    ensures ParseName(FrameName(name) + body) == Parsed(None, name + body)
  {
    var p := FrameName(name) + body;
    assert p[1..] == name + body;
  }

  /** Reading a container: the header decides first (too short:
      IllegalArgumentException, bad password: IllegalStateException), then
      the name frame is parsed from the payload plaintext. */
  function DecodeContainer(pw: seq<Byte>, stream: seq<Byte>): (r: Outcome)
    ensures r.Parsed? ==> |stream| > Header.HeaderSize
  {
    match Header.DecodeHeader(Header.CipherState, pw, stream)
    case Short(_) => Failed(Header.IllegalArgument)
    case BadPassword(_) => Failed(Header.IllegalState)
    case Opened(_, key) =>
      assert |stream| >= Header.HeaderSize by {
        if |stream| < Header.HeaderSize {
          Header.ShortStreamNeverOpens(Header.CipherState, pw, stream);
        }
      }
      ParseName(Payload.Seal(Payload.PayloadEngine(key), stream[Header.HeaderSize..]))
  }

  /** What a writer produces for a header, a name shorter than 256 bytes and
      a body, a reader with the same password opens to that name (none when
      it is empty) and body. */
  lemma ContainerRoundTrip(pw: seq<Byte>, iv: seq<Byte>, check: seq<Byte>, key: seq<Byte>, name: seq<Byte>, body: seq<Byte>)
    requires |iv| == 4 && |check| == 4 && |key| == 64 && |name| < 256
    ensures var plain := FrameName(name) + body;
            var stream := Header.EncodeHeader(Header.CipherState, pw, iv, check, key)
                          + Payload.Seal(Payload.PayloadEngine(key), plain);
            DecodeContainer(pw, stream) == Parsed(if name == [] then None else Some(name), body)
  {
    hide Header.DecodeHeader, Header.EncodeHeader, Payload.PayloadEngine, Stream, Xor;
    var plain := FrameName(name) + body;
    var e := Payload.PayloadEngine(key);
    var stream := Header.EncodeHeader(Header.CipherState, pw, iv, check, key) + Payload.Seal(e, plain);
    Payload.StreamRoundTrip(pw, iv, check, key, plain);
    var rest := stream[Header.HeaderSize..];
    assert rest == Payload.Seal(e, plain);
    assert Payload.Seal(e, rest) == plain;
    NameRoundTrip(name, body);
  }

  /** The sealed bytes from position m on are the bytes from m on sealed
      with the engine that has produced m bytes. */
  lemma SealDrop(e: State, data: seq<Byte>, m: nat)
    requires m <= |data|
    ensures Payload.Seal(e, data)[m..] == Payload.Seal(Stream(e, m).0, data[m..])
  {
    hide Stream, Xor;
    Payload.SealAppend(e, data[..m], data[m..]);
    assert data[..m] + data[m..] == data;
    Payload.KeyFromIs(e, m, |data| - m);
  }

  /** The first sealed byte is the first data byte XOR the engine's first
      output byte. */
  lemma SealFirst(e: State, data: seq<Byte>)
    requires |data| > 0
    ensures Payload.Seal(e, data)[0] == XorByte(data[0], Stream(e, 1).1[0])
  {
    hide Stream;
    StreamAppend(e, 1, |data| - 1);
    assert Stream(e, |data|).1[..1] == Stream(e, 1).1;
  }

  /** `SpritzUtils.readFully` handed a decrypter: the buffer is filled with
      the next plaintext bytes until it is full or the data ends, with the
      engine kept in step. */
  method ReadFullyDecrypted(d: Payload.Decrypter, buffer: array<Byte>) returns (n: int)
    requires d.Valid() && d.InStep() && buffer != d.cipher.s
    modifies d, d.input, d.cipher, d.cipher.s, buffer
    ensures d.Valid() && d.InStep()
    ensures 0 <= n <= buffer.Length && old(d.pos) + n <= |d.data| && d.pos == old(d.pos) + n
    ensures buffer[..n] == Payload.Seal(d.e0, d.data)[old(d.pos)..old(d.pos) + n]
    ensures n < buffer.Length ==> d.pos == |d.data|
  {
    hide Payload.Seal, Payload.KeyFrom, Xor, Stream, Sponge.Valid, Spritz.SpritzCipher.Valid;
    ghost var p0 := d.pos;
    ghost var plain := Payload.Seal(d.e0, d.data);
    var total := buffer.Length;
    var offset := 0;
    while total > 0
      invariant d.Valid() && d.InStep()
      invariant 0 <= offset <= buffer.Length && d.pos == p0 + offset && p0 + offset <= |d.data|
      invariant offset + total == buffer.Length || (total == 0 && d.pos == |d.data|)
      invariant buffer[..offset] == plain[p0..p0 + offset]
      decreases total
    {
      ghost var before := buffer[..];
      ghost var at := d.pos;
      var amount := d.Read(buffer, offset, total);
      if amount >= 0 {
        Payload.ReadSlice(d.e0, d.data, at, amount);
        assert buffer[..offset] == before[..offset];
        assert buffer[..offset + amount] == buffer[..offset] + buffer[offset..offset + amount];
        assert plain[p0..p0 + offset + amount] == plain[p0..p0 + offset] + plain[at..at + amount];
        offset := offset + amount;
        total := total - amount;
      } else {
        total := 0;
      }
    }
    n := offset;
  }

  /** The name-frame parsing of the newest input stream's constructor:
      `read()` gives the length byte (end of data: IllegalArgumentException),
      and `readFully` the name (short: IllegalStateException), both through
      the decrypter. The decrypter is left at the start of the body. */
  method ReadNameFrame(d: Payload.Decrypter) returns (name: Option<seq<Byte>>, err: Option<Header.HeaderError>)
    requires d.Valid() && d.InStep()
    modifies d, d.input, d.cipher, d.cipher.s
    ensures d.Valid() && d.InStep()
    ensures var r := ParseName(Payload.Seal(d.e0, d.data)[old(d.pos)..]);
            && (err == None <==> r.Parsed?)
            && (err != None ==> r == Failed(err.value))
            && (err == None ==> name == r.name && Payload.Seal(d.e0, d.data)[d.pos..] == r.body)
  {
    hide Payload.Seal, Payload.KeyFrom, Xor, Stream, Sponge.Valid, Spritz.SpritzCipher.Valid, FrameName, NameBytes;
    ghost var p0 := d.pos;
    ghost var plain := Payload.Seal(d.e0, d.data);
    ghost var q := plain[p0..];
    var fnamelen := d.ReadByte();
    if fnamelen == -1 {
      assert q == [];
      return None, Some(Header.IllegalArgument);
    }
    Payload.ReadSlice(d.e0, d.data, p0, 1);
    assert fnamelen == q[0];
    if fnamelen > 0 {
      var fnameBytes := new Byte[fnamelen];
      var got := ReadFullyDecrypted(d, fnameBytes);
      if got != fnamelen {
        return None, Some(Header.IllegalState);
      }
      assert d.pos == p0 + 1 + fnamelen;
      assert fnameBytes[..] == fnameBytes[..got];
      assert q[1..1 + fnamelen] == plain[p0 + 1..p0 + 1 + fnamelen];
      assert plain[d.pos..] == q[1 + fnamelen..];
      name, err := Some(fnameBytes[..]), None;
    } else {
      assert plain[d.pos..] == q[1..];
      name, err := None, None;
    }
  }

  /** `SpritzInputStream` of the newest revision: a decrypter over the input
      and the original name it found. */
  class InputContainer {
    const decrypter: Payload.Decrypter
    const internalName: Option<seq<Byte>>

    constructor Init(decrypter: Payload.Decrypter, internalName: Option<seq<Byte>>)
      ensures this.decrypter == decrypter && this.internalName == internalName
    {
      this.decrypter := decrypter;
      this.internalName := internalName;
    }
  }

  /** `new SpritzInputStream(key, is)` of the newest revision: the header
      through a decrypter, then the name frame through the same decrypter,
      whose key stream the body continues. Errors are those of the
      specification function, and on success the decrypter yields exactly
      the body. */
  method OpenInput(pw: seq<Byte>, input: Reader, rnd: nat -> Byte) returns (c: InputContainer?, err: Option<Header.HeaderError>)
    modifies input
    ensures var r := DecodeContainer(pw, old(input.rest));
            && (err == None <==> r.Parsed?)
            && (err != None ==> c == null && r == Failed(err.value))
            && (err == None ==> c != null && fresh(c) && fresh(c.decrypter) && c.decrypter.input == input
                                && c.decrypter.Valid() && c.decrypter.InStep() && c.internalName == r.name
                                && Payload.Seal(c.decrypter.e0, c.decrypter.data)[c.decrypter.pos..] == r.body)
  {
    hide Header.DecodeHeader, Header.CipherState, Payload.PayloadEngine, Payload.Seal, ParseName, Sponge.Valid, Spritz.SpritzCipher.Valid;
    ghost var stream := input.rest;
    var d;
    d, err := Payload.OpenDecrypter(pw, input, rnd);
    if err != None {
      return null, err;
    }
    assert Payload.Seal(d.e0, d.data)[d.pos..] == Payload.Seal(d.e0, d.data);
    var name;
    name, err := ReadNameFrame(d);
    if err != None {
      return null, err;
    }
    c := new InputContainer.Init(d, name);
  }

  /** `write(name.length)` and `write(name)` on an encrypter, which is also
      what the earlier revision does by hand: the length XOR one key-stream
      byte (the low eight bits reach the output), then the name XOR the
      following key-stream bytes. */
  method WriteName(enc: Payload.Encrypter, name: seq<Byte>)
    requires enc.Valid()
    modifies enc, enc.out, enc.cipher, enc.cipher.s
    ensures enc.Valid() && enc.plain == old(enc.plain) + FrameName(name)
  {
    hide Payload.Seal, Payload.KeyFrom, Stream, Xor, Spritz.XorRange, Sponge.Valid, Spritz.SpritzCipher.Valid, FrameName;
    ghost var p0 := enc.plain;
    enc.WriteByte(|name|);
    assert enc.plain == p0 + [|name| % 256];
    var nameBytes := ToArray(name);
    assert nameBytes[0..|name|] == name;
    enc.WriteRange(nameBytes, 0, nameBytes.Length);
    assert enc.plain == p0 + [|name| % 256] + name;
    FrameNameIs(name);
  }

  lemma FrameNameIs(name: seq<Byte>)
    ensures FrameName(name) == [|name| % 256] + name
  {
  }

  /** The constructor of the earlier revision's `SpritzOutputStream`: the
      header as `SpritzHeader.Write` writes it (the same draws of IV, check
      bytes and key, the same key stream), the payload engine, and the name
      frame; the result encrypts the body that follows. */
  method OpenOutput(hint: Option<seq<Byte>>, pw: seq<Byte>, out: Writer, rnd: nat -> Byte) returns (enc: Payload.Encrypter)
    modifies out
    ensures fresh(enc) && enc.Valid() && enc.out == out && enc.plain == FrameName(StoredName(hint))
    ensures enc.prefix == old(out.written) + Header.EncodeHeader(Header.CipherState, pw, Header.Draw(rnd, 0, 4),
                                                                Header.Draw(rnd, 4, 4), Header.Draw(rnd, 8, 64))
    ensures enc.e0 == Payload.PayloadEngine(Header.Draw(rnd, 8, 64))
  {
    hide Header.EncodeHeader, Header.Draw, Payload.PayloadEngine, StoredName, FrameName;
    enc := new Payload.Encrypter(pw, out, rnd);
    WriteName(enc, StoredName(hint));
  }

  /** `SpritzOutputStream` of the newest revision: an encrypter that has
      written the header and the name frame, and the name hint exactly as
      given (not its stored last component). */
  class OutputContainer {
    const encrypter: Payload.Encrypter
    const internalName: Option<seq<Byte>>

    constructor (hint: Option<seq<Byte>>, pw: seq<Byte>, out: Writer, rnd: nat -> Byte)
      modifies out
      ensures internalName == hint
      ensures fresh(encrypter) && encrypter.Valid() && encrypter.out == out
      ensures encrypter.plain == FrameName(StoredName(hint))
      ensures encrypter.prefix == old(out.written) + Header.EncodeHeader(Header.CipherState, pw, Header.Draw(rnd, 0, 4),
                                                                        Header.Draw(rnd, 4, 4), Header.Draw(rnd, 8, 64))
      ensures encrypter.e0 == Payload.PayloadEngine(Header.Draw(rnd, 8, 64))
    {
      hide Header.EncodeHeader, Header.Draw, Payload.PayloadEngine, StoredName, FrameName;
      var e := OpenOutput(hint, pw, out, rnd);
      internalName := hint;
      encrypter := e;
    }
  }

  /** `readFully(in, fnameBytes)` and `squeezeXOR(fnameBytes)` for a name of
      n bytes: the raw bytes XOR the next n key-stream bytes, when the input
      still holds n bytes. */
  method ReadRawName(c: Spritz.SpritzCipher, input: Reader, n: nat) returns (name: seq<Byte>, ok: bool)
    requires c.Valid() && c.a == 0
    modifies c, c.s, input
    ensures c.Valid() && c.a == 0
    ensures ok <==> n <= |old(input.rest)|
    ensures ok ==> name == Xor(old(input.rest)[..n], Stream(old(c.View()), n).1)
                   && input.rest == old(input.rest)[n..] && c.View() == Stream(old(c.View()), n).0
  {
    hide Stream, Sponge.Valid, Spritz.XorRange;
    var fnameBytes := new Byte[n];
    var got := Utils.ReadFully(input, fnameBytes);
    if got != n {
      return [], false;
    }
    ghost var rawName := fnameBytes[..];
    assert rawName == fnameBytes[..got];
    ghost var c1 := c.View();
    Payload.SqueezeXorReady(c, fnameBytes, 0, n);
    Payload.XorRangeSlice(rawName, 0, n, Stream(c1, n).1);
    assert fnameBytes[..] == fnameBytes[0..n];
    assert rawName[0..n] == rawName;
    name, ok := fnameBytes[..], true;
  }

  /** The name frame as the earlier revision's input stream reads it: the
      length byte read raw and XORed with one drip (end of data:
      IllegalArgumentException), the name read raw with `readFully` (short:
      IllegalStateException) and decrypted with `squeezeXOR`. The engine is
      left in step with what remains of the input, which seals to the
      body. */
  method ReadRawNameFrame(c: Spritz.SpritzCipher, input: Reader) returns (name: Option<seq<Byte>>, err: Option<Header.HeaderError>)
    requires c.Valid() && c.a == 0
    modifies c, c.s, input
    ensures c.Valid() && c.a == 0
    ensures var r := ParseName(Payload.Seal(old(c.View()), old(input.rest)));
            && (err == None <==> r.Parsed?)
            && (err != None ==> r == Failed(err.value))
            && (err == None ==> name == r.name && Payload.Seal(c.View(), input.rest) == r.body)
  {
    hide Payload.Seal, Payload.KeyFrom, Stream, Xor, Sponge.Valid;
    ghost var e := c.View();
    ghost var data := input.rest;
    ghost var plain := Payload.Seal(e, data);
    var raw := input.ReadByte();
    if raw == -1 {
      assert plain == [];
      return None, Some(Header.IllegalArgument);
    }
    var k := Payload.DripReady(c);
    var fnamelen := XorByte(raw, k);
    SealFirst(e, data);
    assert fnamelen == plain[0];
    var len: nat := fnamelen;
    if len > 0 {
      var bytes, ok := ReadRawName(c, input, len);
      if !ok {
        return None, Some(Header.IllegalState);
      }
      assert data[1..][..len] == data[1..1 + len];
      Payload.KeyFromIs(e, 1, len);
      Payload.ReadSlice(e, data, 1, len);
      StreamAppend(e, 1, len);
      assert bytes == plain[1..1 + len];
      assert input.rest == data[1 + len..];
      SealDrop(e, data, 1 + len);
      name := Some(bytes);
    } else {
      assert input.rest == data[1..];
      SealDrop(e, data, 1);
      name := None;
    }
    err := None;
  }

  /** The constructor of the earlier revision's `SpritzInputStream`: the same
      header phase as the library decrypter, then the name frame read raw.
      The stream is left as a decrypter whose engine and data start at the
      body, and that decrypter yields exactly the body. */
  method OpenEarlierInput(pw: seq<Byte>, input: Reader) returns (d: Payload.Decrypter?, name: Option<seq<Byte>>, err: Option<Header.HeaderError>)
    modifies input
    ensures var r := DecodeContainer(pw, old(input.rest));
            && (err == None <==> r.Parsed?)
            && (err != None ==> d == null && r == Failed(err.value))
            && (err == None ==> d != null && fresh(d) && d.input == input && d.Valid() && d.InStep()
                                && name == r.name && d.pos == 0 && Payload.Seal(d.e0, d.data) == r.body)
  {
    hide Header.DecodeHeader, Header.CipherState, Payload.PayloadEngine, Payload.Seal, ParseName, Stream, Sponge.Valid, Spritz.SpritzCipher.Valid;
    var c;
    // reading a header draws no random bytes
    c, err := Payload.OpenPayloadEngine(pw, input, _ => 0);
    if err != None {
      return null, None, err;
    }
    name, err := ReadRawNameFrame(c, input);
    if err != None {
      return null, None, err;
    }
    d := new Payload.Decrypter.Init(input, c);
  }
}
