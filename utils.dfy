/** SpritzUtils, which three Java generations carry with the same bodies:
    `readFully` fills a buffer from a stream, `XORInto` XORs one byte array into
    another in place. */
module Utils {
  import opened Bytes
  import opened Streams

  /** readFully(instr, buffer): reads until the buffer is full or the stream
      ends, and returns how many bytes landed in buffer[0..result), in stream
      order. The result is short only when the stream ran dry. */
  method ReadFully(instr: Reader, buffer: array<Byte>) returns (n: int)
    modifies instr, buffer
    ensures 0 <= n <= buffer.Length && n <= |old(instr.rest)|
    ensures buffer[..n] == old(instr.rest)[..n]
    ensures instr.rest == old(instr.rest)[n..]
    ensures n < buffer.Length ==> instr.rest == []
    ensures buffer[n..] == old(buffer[n..])
  {
    var total := buffer.Length;
    var offset := 0;
    while total > 0
      invariant 0 <= offset <= buffer.Length && offset <= |old(instr.rest)|
      // offset + total == buffer.Length until the stream reports its end
      invariant offset + total == buffer.Length || (total == 0 && instr.rest == [])
      invariant buffer[..offset] == old(instr.rest)[..offset]
      invariant instr.rest == old(instr.rest)[offset..]
      invariant buffer[offset..] == old(buffer[offset..])
      decreases total
    {
      ghost var before := buffer[..];
      var amount := instr.Read(buffer, offset, total);
      if amount >= 0 {
        assert buffer[..offset] == before[..offset];
        assert buffer[..offset + amount] == buffer[..offset] + buffer[offset..offset + amount];
        assert old(instr.rest)[..offset + amount] == old(instr.rest)[..offset] + old(instr.rest)[offset..][..amount];
        offset := offset + amount;
        total := total - amount;
      } else {
        total := 0;
      }
    }
    return offset;
  }

  /** XORInto(dest, src): dest[i] ^= src[i] for every index of dest. Java
      demands src.length >= dest.length (a shorter src throws). src is left
      as it was unless it is dest itself. */
  method XorInto(dest: array<Byte>, src: array<Byte>)
    requires src.Length >= dest.Length
    modifies dest
    ensures dest[..] == Xor(old(dest[..]), old(src[..]))
    ensures dest != src ==> src[..] == old(src[..])
  {
    ghost var d0, s0 := dest[..], src[..];
    var i := 0;
    while i < dest.Length
      invariant 0 <= i <= dest.Length
      invariant dest == src ==> d0 == s0
      invariant forall t :: 0 <= t < i ==> dest[t] == XorByte(d0[t], s0[t])
      invariant forall t :: i <= t < dest.Length ==> dest[t] == d0[t]
      invariant dest != src ==> src[..] == s0
    {
      dest[i] := XorByte(dest[i], src[i]);
      i := i + 1;
    }
    assert dest[..] == Xor(d0, s0);
  }
}
