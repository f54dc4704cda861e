/** The byte sources and sinks the revisions read from and write to:
    java.io.InputStream / OutputStream, POSIX read(2), stdio fread and Go's
    io.Reader. A source is the sequence of bytes it has not delivered yet; how
    many bytes one call hands over is the environment's choice, so every
    property proved about a caller holds for every way the data is chunked. */
module Streams {
  import opened Bytes

  /** A byte source. `failing` marks a descriptor whose read(2) reports an error
      (-1) where it would otherwise report end of file. */
  class Reader {
    var rest: seq<Byte>
    const failing: bool

    constructor (data: seq<Byte>, failing: bool)
      ensures rest == data && this.failing == failing
    {
      rest := data;
      this.failing := failing;
    }

    /** InputStream.read(b, off, len): 0 when len is 0, -1 at end of stream,
        otherwise between 1 and len bytes copied to b[off..]. */
    method Read(buf: array<Byte>, off: int, len: int) returns (n: int)
      requires 0 <= off && 0 <= len && off + len <= buf.Length
      modifies this, buf
      ensures len == 0 ==> n == 0
      ensures len > 0 && old(rest) == [] ==> n == -1
      ensures len > 0 && old(rest) != [] ==> 1 <= n <= len
      ensures n >= 0 ==> n <= |old(rest)| && rest == old(rest)[n..] && buf[off..off + n] == old(rest)[..n]
      ensures n < 0 ==> rest == old(rest)
      ensures forall t :: 0 <= t < buf.Length && !(off <= t < off + n) ==> buf[t] == old(buf[t])
    {
      if len == 0 {
        return 0;
      }
      if rest == [] {
        return -1;
      }
      n := Deliver(buf, off, len);
    }

    /** InputStream.read(): the next byte as 0..255, or -1 at end of stream. */
    method ReadByte() returns (v: int)
      modifies this
      ensures old(rest) == [] ==> v == -1 && rest == []
      ensures old(rest) != [] ==> v == old(rest)[0] && rest == old(rest)[1..]
    {
      if rest == [] {
        return -1;
      }
      v := rest[0];
      rest := rest[1..];
    }

    /** POSIX read(fd, buf, len): 0 at end of file, or -1 there when the
        descriptor fails; otherwise between 1 and len bytes. */
    method ReadFd(buf: array<Byte>, len: int) returns (n: int)
      requires 0 < len <= buf.Length
      modifies this, buf
      ensures old(rest) == [] ==> n == (if failing then -1 else 0)
      ensures old(rest) != [] ==> 1 <= n <= len
      ensures n >= 0 ==> n <= |old(rest)| && rest == old(rest)[n..] && buf[..n] == old(rest)[..n]
      ensures n < 0 ==> rest == old(rest)
      ensures forall t :: 0 <= t < buf.Length && !(0 <= t < n) ==> buf[t] == old(buf[t])
    {
      if rest == [] {
        return if failing then -1 else 0;
      }
      n := Deliver(buf, 0, len);
    }

    /** POSIX read(fd, buf + off, len): the same, into buf[off..]. */
    method ReadFdAt(buf: array<Byte>, off: int, len: int) returns (n: int)
      requires 0 <= off && 0 < len && off + len <= buf.Length
      modifies this, buf
      ensures old(rest) == [] ==> n == (if failing then -1 else 0)
      ensures old(rest) != [] ==> 1 <= n <= len
      ensures n >= 0 ==> n <= |old(rest)| && rest == old(rest)[n..] && buf[off..off + n] == old(rest)[..n]
      ensures n < 0 ==> rest == old(rest)
      ensures forall t :: 0 <= t < buf.Length && !(off <= t < off + n) ==> buf[t] == old(buf[t])
    {
      if rest == [] {
        return if failing then -1 else 0;
      }
      n := Deliver(buf, off, len);
    }

    /** stdio fread(buf, 1, len, f): 0 once the data is exhausted (end of file
        or error alike), otherwise between 1 and len bytes. */
    method Fread(buf: array<Byte>, len: int) returns (n: int)
      requires 0 < len <= buf.Length
      modifies this, buf
      ensures old(rest) == [] <==> n == 0
      ensures 0 <= n <= len && n <= |old(rest)|
      ensures rest == old(rest)[n..] && buf[..n] == old(rest)[..n]
      ensures forall t :: 0 <= t < buf.Length && !(0 <= t < n) ==> buf[t] == old(buf[t])
    {
      if rest == [] {
        return 0;
      }
      n := Deliver(buf, 0, len);
    }

    /** InputStream.skip(n): discards between 0 and n bytes (never more than
        remain) and reports how many. */
    method Skip(n: int) returns (skipped: int)
      modifies this
      ensures 0 <= skipped <= |old(rest)|
      ensures skipped <= n || skipped == 0
      ensures rest == old(rest)[skipped..]
    {
      if n <= 0 {
        return 0;
      }
      skipped :| 0 <= skipped <= n && skipped <= |rest|;
      rest := rest[skipped..];
    }

    /** Hands over some non-empty prefix of the pending bytes, at most len. */
    method Deliver(buf: array<Byte>, off: int, len: int) returns (n: int)
      requires 0 <= off && 0 < len && off + len <= buf.Length && rest != []
      modifies this, buf
      ensures 1 <= n <= len && n <= |old(rest)|
      ensures rest == old(rest)[n..] && buf[off..off + n] == old(rest)[..n]
      ensures forall t :: 0 <= t < buf.Length && !(off <= t < off + n) ==> buf[t] == old(buf[t])
    {
      assert 1 <= len && 1 <= |rest|;
      n :| 1 <= n <= len && n <= |rest|;
      forall t | off <= t < off + n {
        buf[t] := rest[t - off];
      }
      rest := rest[n..];
    }
  }

  /** A byte sink: everything written so far, in order. */
  class Writer {
    var written: seq<Byte>

    constructor ()
      ensures written == []
    {
      written := [];
    }

    /** OutputStream.write(int): the low eight bits of b. */
    method Write(b: Byte)
      modifies this
      ensures written == old(written) + [b]
    {
      written := written + [b];
    }

    /** OutputStream.write(b, off, len). */
    method WriteRange(buf: array<Byte>, off: int, len: int)
      requires 0 <= off && 0 <= len && off + len <= buf.Length
      modifies this
      ensures written == old(written) + buf[off..off + len]
    {
      written := written + buf[off..off + len];
    }
  }

  /** One result of Go's io.Reader.Read: the bytes delivered and whether
      io.EOF came with them. The io.Reader contract allows a final chunk to
      arrive together with io.EOF. */
  datatype Chunk = Chunk(data: seq<Byte>, eof: bool)

  /** An io.Reader that answers its calls from a fixed script of results and
      reports (0, io.EOF) once the script is used up. */
  class GoReader {
    var script: seq<Chunk>

    constructor (script: seq<Chunk>)
      ensures this.script == script
    {
      this.script := script;
    }

    /** strm.Read(p): n <= len(p) bytes in p[:n], and the io.EOF flag. */
    method Read(p: array<Byte>) returns (n: int, eof: bool)
      requires script != [] ==> |script[0].data| <= p.Length
      modifies this, p
      ensures old(script) == [] ==> n == 0 && eof && script == []
      ensures old(script) != [] ==> n == |old(script)[0].data| && eof == old(script)[0].eof
      ensures old(script) != [] ==> script == old(script)[1..] && p[..n] == old(script)[0].data
      ensures 0 <= n <= p.Length && p[n..] == old(p[n..])
    {
      if script == [] {
        return 0, true;
      }
      var c := script[0];
      n, eof := |c.data|, c.eof;
      forall t | 0 <= t < n {
        p[t] := c.data[t];
      }
      script := script[1..];
    }
  }
}
