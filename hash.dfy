/** The keyed hash of every revision: absorb the data, absorb a stop, absorb the
    output length, then squeeze that many bytes. The revisions differ only in
    how the length is absorbed (one truncated byte, or its big-endian digits)
    and in how the data reaches the sponge (an array, a stream read in chunks,
    a Go io.Reader). */
module Hash {
  import opened Bytes
  import opened Sponge
  import opened Streams
  import Spritz

  /** The sponge once the data, a stop and the length suffix are absorbed. */
  function Absorbed(data: seq<Byte>, suffix: seq<Byte>): State
  {
    AbsorbBytes(AbsorbStop(AbsorbBytes(Initial(), data)), suffix)
  }

  /** n hash bytes of data under the given length suffix. */
  function Digest(data: seq<Byte>, suffix: seq<Byte>, n: nat): (r: seq<Byte>)
    ensures |r| == n
  {
    Squeeze(Absorbed(data, suffix), n).1
  }

  /** The Java, c_version, C++ and Go hash: the length enters as one byte,
      its low eight bits. */
  function ShortDigest(data: seq<Byte>, n: nat): (r: seq<Byte>)
    ensures |r| == n
  {
    Digest(data, [n % 256], n)
  }

  /** The src/spritz.c and MSVC hash: the length enters as its big-endian
      digits (`absorb_number`). */
  function LongDigest(data: seq<Byte>, n: nat): (r: seq<Byte>)
    ensures |r| == n
    ensures n <= 255 ==> r == ShortDigest(data, n)
  {
    if n <= 255 then BigEndianSmall(n); Digest(data, BigEndian(n), n)
    else Digest(data, BigEndian(n), n)
  }

  /** Every hash state is a valid sponge, and the digest has the requested
      length. */
  lemma DigestFacts(data: seq<Byte>, suffix: seq<Byte>, n: nat)
    ensures Valid(Absorbed(data, suffix))
    ensures |Digest(data, suffix, n)| == n
  {
    InitialValid();
    AbsorbBytesValid(Initial(), data);
    AbsorbStopValid(AbsorbBytes(Initial(), data));
    AbsorbBytesValid(AbsorbStop(AbsorbBytes(Initial(), data)), suffix);
  }

  /** The two length encodings give the same hash up to 255 bytes of output and
      different absorbed suffixes beyond. */
  lemma {:induction false} DigestsAgree(data: seq<Byte>, n: nat)
    ensures n <= 255 ==> ShortDigest(data, n) == LongDigest(data, n)
    ensures n > 255 ==> BigEndian(n) != [n % 256]
  {
    if n <= 255 {
      BigEndianSmall(n);
    } else {
      assert |BigEndian(n)| == |BigEndian(n / 256)| + 1;
    }
  }

  /** Absorbing a stream chunk by chunk is absorbing its concatenation. */
  lemma AbsorbChunk(consumed: seq<Byte>, chunk: seq<Byte>)
    ensures AbsorbBytes(AbsorbBytes(Initial(), consumed), chunk) == AbsorbBytes(Initial(), consumed + chunk)
  {
    AbsorbBytesAppend(Initial(), consumed, chunk);
  }

  /** A one-byte suffix is one `absorb` call after the stop. */
  lemma AbsorbedOneByte(data: seq<Byte>, b: Byte)
    ensures Absorbed(data, [b]) == AbsorbByte(AbsorbStop(AbsorbBytes(Initial(), data)), b)
  {
    AbsorbBytesLast(AbsorbStop(AbsorbBytes(Initial(), data)), [b]);
    assert [b][..0] == [];
  }

  /** The one-byte-suffix hash as the engine computes it: absorb, stop, absorb
      the length byte, squeeze. */
  lemma ShortDigestSteps(data: seq<Byte>, n: nat, b: Byte)
    requires b == n % 256
    ensures ShortDigest(data, n) == Squeeze(AbsorbByte(AbsorbStop(AbsorbBytes(Initial(), data)), b), n).1
  {
    AbsorbedOneByte(data, b);
  }

  /** The same for a length that is itself a byte (c_version's uint8_t). */
  lemma ByteDigestSteps(data: seq<Byte>, b: Byte)
    ensures ShortDigest(data, b) == Squeeze(AbsorbByte(AbsorbStop(AbsorbBytes(Initial(), data)), b), b).1
  {
    assert b % 256 == b;
    ShortDigestSteps(data, b, b);
  }

  /** Java `int` arithmetic: a sum wraps to the 32-bit range. */
  function Wrap32(x: int): (r: int)
    ensures -0x8000_0000 <= r < 0x8000_0000
    ensures -0x8000_0000 <= x < 0x8000_0000 ==> r == x
    ensures (x - r) % 0x1_0000_0000 == 0
  {
    (x + 0x8000_0000) % 0x1_0000_0000 - 0x8000_0000
  }

  /** Integer division truncating toward zero, as Java and Go divide. */
  function TruncDiv(x: int, d: int): (r: int)
    requires d > 0
    ensures x >= 0 ==> 0 <= x - d * r < d
    ensures x < 0 ==> -d < x - d * r <= 0
  {
    if x >= 0 then x / d else -((-x) / d)
  }

  /** `(bits + 7) / 8` in Java `int` arithmetic. */
  function HashBytes(bits: int): (r: int)
    ensures 0 <= bits <= 0x7FFF_FFF8 ==> 8 * r >= bits > 8 * (r - 1)
  {
    TruncDiv(Wrap32(bits + 7), 8)
  }

  /** For a width in 0..2^31-8 the byte count rounds bits up to whole bytes; a
      Java int width yields a negative count (and so an exception from
      `new byte[]`) exactly below -14 or above 2^31-8, where bits + 7
      overflows. */
  lemma HashBytesRange(bits: int)
    requires -0x8000_0000 <= bits < 0x8000_0000
    ensures HashBytes(bits) < 0 <==> bits < -14 || bits > 0x7FFF_FFF8
    ensures 0 <= bits <= 0x7FFF_FFF8 ==> 8 * HashBytes(bits) >= bits > 8 * (HashBytes(bits) - 1)
  {
    if bits > 0x7FFF_FFF8 {
      assert Wrap32(bits + 7) == bits + 7 - 0x1_0000_0000;
    }
  }

  /** absorbIntBytes(c, n) and `absorb_number(s, n)`: the big-endian digits of
      n, most significant first, absorbed one byte at a time. */
  method AbsorbIntBytes(c: Spritz.SpritzCipher, n: int)
    requires c.Valid()
    modifies c, c.s
    ensures c.Valid() && c.View() == AbsorbBytes(old(c.View()), BigEndian(n))
    decreases n
  {
    if n <= 255 {
      c.Absorb(n % 256);
      assert BigEndian(n) == [n % 256];
      assert AbsorbBytes(old(c.View()), [n % 256]) == AbsorbByte(old(c.View()), n % 256) by {
        AbsorbBytesLast(old(c.View()), [n % 256]);
        assert [n % 256][..0] == [];
      }
    } else {
      AbsorbIntBytes(c, n / 256);
      ghost var mid := c.View();
      c.Absorb(n % 256);
      AbsorbBytesLast(old(c.View()), BigEndian(n));
      assert BigEndian(n)[..|BigEndian(n)| - 1] == BigEndian(n / 256);
    }
  }

  /** `hash(bits, data)`: the hash of an array, (bits + 7) / 8 bytes long. A
      negative byte count makes `new byte[]` throw, modelled as None. */
  method HashData(bits: int, data: array<Byte>) returns (r: Option<seq<Byte>>)
    ensures r.None? <==> HashBytes(bits) < 0
    ensures r.Some? ==> r.value == ShortDigest(data[..], HashBytes(bits))
  {
    var bytes := HashBytes(bits);
    var hasher := new Spritz.SpritzCipher();
    hasher.AbsorbAll(data);
    hasher.AbsorbStop();
    hasher.Absorb(bytes % 256);
    if bytes < 0 {
      return None;
    }
    var out := hasher.SqueezeCount(bytes);
    ShortDigestSteps(data[..], bytes, bytes % 256);
    return Some(out[..]);
  }

  /** `hash(8 * n, data)` for the widths the key derivations and headers use,
      as a fresh array. */
  method DigestOf(data: seq<Byte>, n: nat) returns (digest: array<Byte>)
    requires n == 4 || n == 32 || n == 64
    ensures fresh(digest) && digest[..] == ShortDigest(data, n)
  {
    var dataArr := ToArray(data);
    var bits := if n == 4 then 32 else if n == 32 then 256 else 512;
    assert HashBytes(bits) == n;
    var h := HashData(bits, dataArr);
    digest := ToArray(h.value);
  }

  /** `hash(bits, instr)`: reads the stream to its end in 4096-byte chunks,
      absorbing each chunk as it arrives, then finishes like `hash(bits,
      data)`. Whatever chunk sizes the stream chooses, the result is the hash
      of everything it held. */
  method HashStream(bits: int, instr: Reader) returns (r: Option<seq<Byte>>)
    modifies instr
    ensures instr.rest == []
    ensures r.None? <==> HashBytes(bits) < 0
    ensures r.Some? ==> r.value == ShortDigest(old(instr.rest), HashBytes(bits))
  {
    var hasher := new Spritz.SpritzCipher();
    var bytes := HashBytes(bits);
    var buffer := new Byte[4096](_ => 0);
    var count := 0;
    ghost var consumed: seq<Byte> := [];
    while count >= 0
      invariant hasher.Valid() && buffer != hasher.s && buffer.Length == 4096
      invariant consumed + instr.rest == old(instr.rest)
      invariant hasher.View() == AbsorbBytes(Initial(), consumed)
      invariant count < 0 ==> instr.rest == []
      decreases |instr.rest| + (if count >= 0 then 1 else 0)
    {
      ghost var pending := instr.rest;
      count := instr.Read(buffer, 0, 4096);
      hasher.AbsorbRange(buffer, 0, count);
      if count > 0 {
        assert buffer[0..count] == buffer[..count];
        AbsorbChunk(consumed, buffer[..count]);
        SplitAt(pending, count);
        Regroup(consumed, buffer[..count], instr.rest);
        consumed := consumed + buffer[..count];
      }
    }
    assert consumed == old(instr.rest);
    hasher.AbsorbStop();
    hasher.Absorb(bytes % 256);
    if bytes < 0 {
      return None;
    }
    var out := hasher.SqueezeCount(bytes);
    ShortDigestSteps(consumed, bytes, bytes % 256);
    return Some(out[..]);
  }

  /** src/spritz.c and MSVC `spritz_mem_hash(mem, len, hash, bytes)`: fills
      `hash` with the hash of `mem`, absorbing the length with
      `absorb_number`. It reports success whenever the state exists. */
  method MemHash(mem: array<Byte>, hash: array<Byte>) returns (ok: bool)
    modifies hash
    ensures ok
    ensures hash[..] == LongDigest(old(mem[..]), hash.Length)
  {
    var s := new Spritz.SpritzCipher();
    s.AbsorbAll(mem);
    s.AbsorbStop();
    AbsorbIntBytes(s, hash.Length);
    s.Squeeze(hash);
    return true;
  }

  /** src/spritz.c `spritz_file_hash(fd, hash, size)`: absorbs every chunk
      read(2) returns; on a read error it gives up with false and leaves
      `hash` alone, otherwise it fills `hash` as `spritz_mem_hash` would over
      the whole file. */
  method FileHash(fd: Reader, hash: array<Byte>) returns (ok: bool)
    modifies fd, hash
    ensures fd.rest == []
    ensures ok <==> !fd.failing
    ensures ok ==> hash[..] == LongDigest(old(fd.rest), hash.Length)
    ensures !ok ==> hash[..] == old(hash[..])
  {
    var s := new Spritz.SpritzCipher();
    ok := AbsorbFile(s, fd);
    if ok {
      s.AbsorbStop();
      AbsorbIntBytes(s, hash.Length);
      s.Squeeze(hash);
    }
  }

  /** The read loop of `spritz_file_hash`: every chunk read(2) returns goes into
      the sponge, until it reports end of file (0) or an error (-1). */
  method AbsorbFile(s: Spritz.SpritzCipher, fd: Reader) returns (ok: bool)
    requires s.Valid()
    modifies s, s.s, fd
    ensures s.Valid() && fd.rest == []
    ensures ok <==> !fd.failing
    ensures ok ==> s.View() == AbsorbBytes(old(s.View()), old(fd.rest))
  {
    var buffer := new Byte[4096](_ => 0);
    ghost var start := s.View();
    ghost var consumed: seq<Byte> := [];
    var rsz := fd.ReadFd(buffer, 4096);
    if rsz > 0 {
      SplitAt(old(fd.rest), rsz);
    }
    while rsz > 0
      invariant s.Valid() && buffer != s.s && buffer.Length == 4096
      invariant rsz <= 4096
      invariant rsz > 0 ==> consumed + buffer[..rsz] + fd.rest == old(fd.rest)
      invariant rsz <= 0 ==> consumed == old(fd.rest) && fd.rest == [] && (rsz < 0 <==> fd.failing)
      invariant s.View() == AbsorbBytes(start, consumed)
      decreases |fd.rest| + (if rsz > 0 then 1 else 0)
    {
      s.AbsorbRange(buffer, 0, rsz);
      assert buffer[0..rsz] == buffer[..rsz];
      AbsorbBytesAppend(start, consumed, buffer[..rsz]);
      consumed := consumed + buffer[..rsz];
      ghost var pending := fd.rest;
      rsz := fd.ReadFd(buffer, 4096);
      if rsz > 0 {
        SplitAt(pending, rsz);
        Regroup(consumed, buffer[..rsz], fd.rest);
      }
    }
    ok := rsz == 0;
  }

  /** c_version `spritz_string_hash(bytes, str, len)`: the output length is a
      uint8_t, absorbed as that one byte. */
  method StringHash(bytes: Byte, str: array<Byte>) returns (r: seq<Byte>)
    ensures r == ShortDigest(str[..], bytes)
  {
    var ans := new Byte[bytes](_ => 0);
    var s := new Spritz.SpritzCipher();
    s.AbsorbAll(str);
    s.AbsorbStop();
    s.Absorb(bytes);
    s.Squeeze(ans);
    ByteDigestSteps(str[..], bytes);
    return ans[..];
  }

  /** The read loop of c_version `spritz_file_hash`: every chunk fread
      delivers goes into the sponge, until it returns 0. */
  method AbsorbFread(s: Spritz.SpritzCipher, input: Reader)
    requires s.Valid()
    modifies s, s.s, input
    ensures s.Valid() && input.rest == []
    ensures s.View() == AbsorbBytes(old(s.View()), old(input.rest))
  {
    var buffer := new Byte[4096](_ => 0);
    ghost var start := s.View();
    ghost var consumed: seq<Byte> := [];
    var numRead := input.Fread(buffer, 4096);
    while numRead > 0
      invariant s.Valid() && buffer != s.s && buffer.Length == 4096
      invariant 0 <= numRead && consumed + buffer[..numRead] + input.rest == old(input.rest)
      invariant numRead == 0 ==> input.rest == []
      invariant s.View() == AbsorbBytes(start, consumed)
      decreases |input.rest| + (if numRead > 0 then 1 else 0)
    {
      s.AbsorbRange(buffer, 0, numRead);
      assert buffer[0..numRead] == buffer[..numRead];
      AbsorbBytesAppend(start, consumed, buffer[..numRead]);
      consumed := consumed + buffer[..numRead];
      ghost var pending := input.rest;
      numRead := input.Fread(buffer, 4096);
      SplitAt(pending, numRead);
      Regroup(consumed, buffer[..numRead], input.rest);
    }
    assert consumed == old(input.rest);
  }

  /** c_version `spritz_file_hash(bytes, input)`: absorbs what fread delivers
      until it returns 0, then hashes like `spritz_string_hash`. */
  method FileHashC(bytes: Byte, input: Reader) returns (r: seq<Byte>)
    modifies input
    ensures input.rest == []
    ensures r == ShortDigest(old(input.rest), bytes)
  {
    var ans := new Byte[bytes](_ => 0);
    var s := new Spritz.SpritzCipher();
    AbsorbFread(s, input);
    s.AbsorbStop();
    s.Absorb(bytes);
    s.Squeeze(ans);
    ByteDigestSteps(old(input.rest), bytes);
    return ans[..];
  }

  /** C++ `squeeze(s, amt, dest)` and Go `DripMany`: amt successive `drip`
      calls, each of which shuffles first when a > 0, written to dest[0..amt). */
  method DripMany(c: Spritz.SpritzCipher, dest: array<Byte>, amt: nat)
    requires c.Valid() && dest != c.s && amt <= dest.Length
    modifies c, c.s, dest
    ensures c.Valid() && c.View() == Drips(old(c.View()), amt).0
    ensures dest[..amt] == Drips(old(c.View()), amt).1
    ensures dest[amt..] == old(dest[amt..])
  {
    ghost var st := c.View();
    var t := 0;
    while t < amt
      invariant 0 <= t <= amt && c.Valid()
      invariant c.View() == Drips(st, t).0
      invariant dest[..t] == Drips(st, t).1
      invariant dest[amt..] == old(dest[amt..])
    {
      DripsStep(st, t);
      var d := c.Drip();
      dest[t] := d;
      assert dest[..t + 1] == dest[..t] + [d];
      t := t + 1;
    }
  }

  /** Per-byte drips give the squeezed bytes: for any count, the outputs of
      `DripMany` are those of `squeeze`. */
  lemma DripsAreSqueezed(st: State, n: nat)
    ensures Drips(st, n).1 == Squeeze(st, n).1
  {
    if n > 0 {
      DripsIsSqueeze(st, n);
    }
  }

  /** C++ `hash(bytes, src, srcend, dest)`: absorbs the source, a stop and
      `static_cast<uint8_t>(bytes)`, then writes `bytes` drips through dest. */
  method CppHash(bytes: nat, src: array<Byte>, dest: array<Byte>)
    requires bytes <= dest.Length
    modifies dest
    ensures dest[..bytes] == ShortDigest(old(src[..]), bytes)
    ensures dest[bytes..] == old(dest[bytes..])
  {
    var s := new Spritz.SpritzCipher();
    s.AbsorbAll(src);
    s.AbsorbStop();
    s.Absorb(bytes % 256);
    ghost var st := s.View();
    DripMany(s, dest, bytes);
    DripsAreSqueezed(st, bytes);
    ShortDigestSteps(old(src[..]), bytes, bytes % 256);
  }

  /** C++ `hash(src, srcend, dest, destend)`: as many hash bytes as the
      destination range holds. */
  method CppHashRange(src: array<Byte>, dest: array<Byte>)
    modifies dest
    ensures dest[..] == ShortDigest(old(src[..]), dest.Length)
  {
    CppHash(dest.Length, src, dest);
  }

  /** The bytes Go's `Hash` loop absorbs from a sequence of Read results: it
      stops at the first result carrying io.EOF without absorbing that
      result's bytes. */
  function GoAbsorbed(script: seq<Chunk>): seq<Byte>
  {
    if script == [] || script[0].eof then [] else script[0].data + GoAbsorbed(script[1..])
  }

  /** Everything a reader delivers up to and including its io.EOF result. */
  function Delivered(script: seq<Chunk>): seq<Byte>
  {
    if script == [] then []
    else if script[0].eof then script[0].data
    else script[0].data + Delivered(script[1..])
  }

  /** A reader whose last bytes arrive together with io.EOF (allowed by the
      io.Reader contract, and what testing/iotest.DataErrReader produces)
      has those bytes left out of the digest: "ABC" in one final Read hashes
      as the empty input. */
  lemma GoHashDropsFinalChunk()
    ensures GoAbsorbed([Chunk([65, 66, 67], true)]) == []
    ensures Delivered([Chunk([65, 66, 67], true)]) == [65, 66, 67]
  {
  }

  /** For readers that report io.EOF on a Read of its own (os.File,
      bytes.Reader), the loop absorbs everything delivered. */
  lemma {:induction false} GoAbsorbedWhenEofAlone(script: seq<Chunk>)
    requires forall t :: 0 <= t < |script| && script[t].eof ==> script[t].data == []
    ensures GoAbsorbed(script) == Delivered(script)
  {
    if script != [] && !script[0].eof {
      GoAbsorbedWhenEofAlone(script[1..]);
    }
  }

  /** Every Read result fits the caller's buffer, as io.Reader promises
      (n <= len(p)). */
  predicate ChunksFit(script: seq<Chunk>, size: nat)
  {
    script == [] || (|script[0].data| <= size && ChunksFit(script[1..], size))
  }

  /** Go's `(bits + 7) / 8`, truncating toward zero. */
  function GoHashBytes(bits: int): (r: int)
    ensures bits >= 0 ==> bits <= 8 * r < bits + 8
    ensures r < 0 <==> bits < -14
  {
    TruncDiv(bits + 7, 8)
  }

  /** The read loop of Go's `Hash` as written: `AbsorbMany` on each chunk
      whose Read did not report io.EOF, stopping at the first that did. */
  method AbsorbUntilEof(ss: Spritz.SpritzCipher, strm: GoReader)
    requires ss.Valid() && ChunksFit(strm.script, 4096)
    modifies ss, ss.s, strm
    ensures ss.Valid() && ss.View() == AbsorbBytes(old(ss.View()), GoAbsorbed(old(strm.script)))
  {
    ghost var st := ss.View();
    var buffer := new Byte[4096](_ => 0);
    ghost var absorbed: seq<Byte> := [];
    var count, eof := strm.Read(buffer);
    while !eof
      invariant ss.Valid() && buffer != ss.s && buffer.Length == 4096
      invariant ChunksFit(strm.script, 4096)
      invariant 0 <= count <= 4096
      invariant !eof ==> absorbed + buffer[..count] + GoAbsorbed(strm.script) == GoAbsorbed(old(strm.script))
      invariant eof ==> absorbed == GoAbsorbed(old(strm.script))
      invariant ss.View() == AbsorbBytes(st, absorbed)
      decreases |strm.script| + (if eof then 0 else 1)
    {
      AbsorbBuffered(ss, buffer, count, st, absorbed);
      absorbed := absorbed + buffer[..count];
      count, eof := strm.Read(buffer);
      if !eof {
        Regroup(absorbed, buffer[..count], GoAbsorbed(strm.script));
      }
    }
  }

  /** One chunk of a read loop: the first `count` bytes of the buffer are
      absorbed after everything absorbed so far. */
  method AbsorbBuffered(ss: Spritz.SpritzCipher, buffer: array<Byte>, count: int, ghost st: State, ghost absorbed: seq<Byte>)
    requires ss.Valid() && buffer != ss.s && 0 <= count <= buffer.Length
    requires ss.View() == AbsorbBytes(st, absorbed)
    modifies ss, ss.s
    ensures ss.Valid() && ss.View() == AbsorbBytes(st, absorbed + buffer[..count])
  {
    ss.AbsorbRange(buffer, 0, count);
    assert buffer[0..count] == buffer[..count];
    AbsorbBytesAppend(st, absorbed, buffer[..count]);
  }

  /** The read loop with each chunk absorbed before the io.EOF test. */
  method AbsorbThroughEof(ss: Spritz.SpritzCipher, strm: GoReader)
    requires ss.Valid() && ChunksFit(strm.script, 4096)
    modifies ss, ss.s, strm
    ensures ss.Valid() && ss.View() == AbsorbBytes(old(ss.View()), Delivered(old(strm.script)))
  {
    ghost var st := ss.View();
    var buffer := new Byte[4096](_ => 0);
    ghost var absorbed: seq<Byte> := [];
    var eof := false;
    while !eof
      invariant ss.Valid() && buffer != ss.s && buffer.Length == 4096
      invariant ChunksFit(strm.script, 4096)
      invariant !eof ==> absorbed + Delivered(strm.script) == Delivered(old(strm.script))
      invariant eof ==> absorbed == Delivered(old(strm.script))
      invariant ss.View() == AbsorbBytes(st, absorbed)
      decreases |strm.script| + (if eof then 0 else 1)
    {
      var count;
      count, eof := strm.Read(buffer);
      AbsorbBuffered(ss, buffer, count, st, absorbed);
      if !eof {
        Regroup(absorbed, buffer[..count], Delivered(strm.script));
      }
      absorbed := absorbed + buffer[..count];
    }
  }

  /** Go `Hash(bits, strm)` as written. A negative length makes `make` panic,
      modelled as None. */
  method GoHash(bits: int, strm: GoReader) returns (r: Option<seq<Byte>>)
    requires ChunksFit(strm.script, 4096)
    modifies strm
    ensures r.None? <==> GoHashBytes(bits) < 0
    ensures r.Some? ==> r.value == ShortDigest(GoAbsorbed(old(strm.script)), GoHashBytes(bits))
  {
    var bytes := GoHashBytes(bits);
    if bytes < 0 {
      return None;
    }
    var ans := new Byte[bytes](_ => 0);
    var ss := new Spritz.SpritzCipher();
    AbsorbUntilEof(ss, strm);
    ss.AbsorbStop();
    ss.Absorb(bytes % 256);
    ghost var st := ss.View();
    DripMany(ss, ans, bytes);
    DripsAreSqueezed(st, bytes);
    ShortDigestSteps(GoAbsorbed(old(strm.script)), bytes, bytes % 256);
    return Some(ans[..]);
  }

  /** Go `Hash` with the chunk absorbed before the io.EOF test: the digest
      covers everything the reader delivered. */
  method GoHashFixed(bits: int, strm: GoReader) returns (r: Option<seq<Byte>>)
    requires ChunksFit(strm.script, 4096)
    modifies strm
    ensures r.None? <==> GoHashBytes(bits) < 0
    ensures r.Some? ==> r.value == ShortDigest(Delivered(old(strm.script)), GoHashBytes(bits))
  {
    var bytes := GoHashBytes(bits);
    if bytes < 0 {
      return None;
    }
    var ans := new Byte[bytes](_ => 0);
    var ss := new Spritz.SpritzCipher();
    AbsorbThroughEof(ss, strm);
    ss.AbsorbStop();
    ss.Absorb(bytes % 256);
    ghost var st := ss.View();
    DripMany(ss, ans, bytes);
    DripsAreSqueezed(st, bytes);
    ShortDigestSteps(Delivered(old(strm.script)), bytes, bytes % 256);
    return Some(ans[..]);
  }
}
