/** The Spritz engine as the Java class `SpritzCipher` keeps it: a 256-byte array
    `s` updated in place and six byte registers. Every method is proved against
    the functional sponge of module Sponge, and keeps its invariant (`s` a
    permutation, a in [0,128], w odd). The C, C++ and Go engines are the same
    object under other names. */
module Spritz {
  import opened Bytes
  import Sponge
  import Gcd

  class SpritzCipher {
    var i: Byte
    var j: Byte
    var k: Byte
    var z: Byte
    var a: Byte
    var w: Byte
    const s: array<Byte>

    /** The array has its 256 cells. */
    predicate Shaped()
    {
      s.Length == 256
    }

    /** The engine as a sponge state value. */
    function View(): Sponge.State
      reads this, s
      requires Shaped()
    {
      Sponge.State(s[..], i, j, k, z, a, w)
    }

    /** The engine invariant. */
    ghost predicate Valid()
      reads this, s
    {
      Shaped() && Sponge.Valid(View())
    }

    /** `new SpritzCipher()`: a zeroed array, then `reset`. */
    constructor ()
      ensures Valid() && View() == Sponge.Initial()
      ensures fresh(s)
    {
      s := new Byte[256](_ => 0);
      new;
      Reset();
    }

    /** `reset`: the identity permutation and the initial registers, whatever the
        engine held before, so a reset engine is a fresh one. */
    method Reset()
      requires Shaped()
      modifies this, s
      ensures Valid() && View() == Sponge.Initial()
    {
      i, j, k, z, a := 0, 0, 0, 0, 0;
      w := 1;
      for idx := 0 to 256
        invariant forall n :: 0 <= n < idx ==> s[n] == n
        modifies s
      {
        s[idx] := idx;
      }
      assert s[..] == Sponge.Identity();
      Sponge.InitialValid();
    }

    method Swap(e1: Byte, e2: Byte)
      requires Shaped()
      modifies s
      ensures s[..] == Sponge.Swap(old(s[..]), e1, e2)
    {
      var tmp := s[e1];
      s[e1] := s[e2];
      s[e2] := tmp;
    }

    /** `absorb(b)`: the low nibble, then the high nibble. */
    method Absorb(b: Byte)
      requires Valid()
      modifies this, s
      ensures Valid() && View() == Sponge.AbsorbByte(old(View()), b)
    {
      AbsorbNibble(b % 16);
      AbsorbNibble(b / 16);
    }

    /** `absorb(bs, start, end)`: every byte of bs[start..end) in order. */
    method AbsorbRange(bs: array<Byte>, start: int, end: int)
      requires Valid() && bs != s
      requires 0 <= start <= end <= bs.Length || end <= start
      modifies this, s
      ensures Valid()
      ensures start < end ==> View() == Sponge.AbsorbBytes(old(View()), bs[start..end])
      ensures end <= start ==> View() == old(View())
    {
      hide Sponge.AbsorbBytes;
      if end <= start {
        return;
      }
      for idx := start to end
        invariant Valid()
        invariant View() == Sponge.AbsorbBytes(old(View()), bs[start..idx])
      {
        Absorb(bs[idx]);
        assert bs[start..idx + 1][..idx - start] == bs[start..idx];
        Sponge.AbsorbBytesLast(old(View()), bs[start..idx + 1]);
      }
    }

    /** `absorb(bs)`: the whole array. */
    method AbsorbAll(bs: array<Byte>)
      requires Valid() && bs != s
      modifies this, s
      ensures Valid() && View() == Sponge.AbsorbBytes(old(View()), bs[..])
    {
      AbsorbRange(bs, 0, bs.Length);
      assert bs[0..bs.Length] == bs[..];
      assert bs.Length == 0 ==> bs[..] == [];
    }

    /** `absorbNibble(x)`: shuffle when the lower half is used up, then move the
        nibble's cell into position a. */
    method AbsorbNibble(x: Byte)
      requires Valid() && x < 16
      modifies this, s
      ensures Valid() && View() == Sponge.AbsorbNibble(old(View()), x)
    {
      Sponge.AbsorbNibbleValid(View(), x);
      if a == 128 {
        Shuffle();
      }
      Swap(a, 128 + x);
      a := a + 1;
    }

    /** `absorbStop`. */
    method AbsorbStop()
      requires Valid()
      modifies this, s
      ensures Valid() && View() == Sponge.AbsorbStop(old(View()))
    {
      Sponge.AbsorbStopValid(View());
      if a == 128 {
        Shuffle();
      }
      a := a + 1;
    }

    /** `shuffle`. */
    method Shuffle()
      requires Shaped()
      modifies this, s
      ensures View() == Sponge.Shuffle(old(View()))
    {
      Whip(512);
      Crush();
      Whip(512);
      Crush();
      Whip(512);
      a := 0;
    }

    /** `whip`: the update rounds, then w moves on (at least once) until it is
        coprime with 256. */
    method Whip(r: nat)
      requires Shaped()
      modifies this, s
      ensures View() == Sponge.Whip(old(View()), r)
    {
      Update(r);
      ghost var u := View();
      ghost var target := Sponge.NextCoprime(w);
      w := Add(w, 1);
      while Gcd.Gcd(w, 256) != 1
        invariant target == if Gcd.Gcd(w, 256) == 1 then w else Sponge.NextCoprime(w)
        invariant View() == u.(w := w)
        decreases if Sponge.Odd(w) then 0 else 1
      {
        Gcd.CoprimeWith256IffOdd(w);
        w := Add(w, 1);
      }
      assert w == target;
    }

    /** `crush`: order each pair s[v], s[255 - v] of the two halves. */
    method Crush()
      requires Shaped()
      modifies s
      ensures s[..] == Sponge.Crushed(old(s[..]), 128)
    {
      for v := 0 to 128
        invariant s[..] == Sponge.Crushed(old(s[..]), v)
      {
        if s[v] > s[255 - v] {
          Swap(v, 255 - v);
        }
      }
    }

    /** `update(amt)`: amt rounds on local copies of i, j, k, written back at the
        end; each round writes the two cells it exchanges. */
    method Update(amt: nat)
      requires Shaped()
      modifies this, s
      ensures View() == Sponge.Updates(old(View()), amt)
    {
      var mi, mj, mk := i, j, k;
      var mw := w;
      var left := amt;
      while left > 0
        invariant 0 <= left <= amt
        invariant Sponge.State(s[..], mi, mj, mk, z, a, w) == Sponge.Updates(old(View()), amt - left)
        invariant z == old(z) && a == old(a) && w == old(w) && mw == w
      {
        mi := Add(mi, mw);
        var si := s[mi];
        mj := Add(mk, s[Add(mj, si)]);
        var sj := s[mj];
        mk := Add(Add(mi, mk), sj);
        s[mi] := sj;
        s[mj] := si;
        left := left - 1;
      }
      i, j, k := mi, mj, mk;
    }

    /** `dripOne`: one update round, then z = s[j + s[i + s[z + k]]]. */
    method DripOne() returns (r: Byte)
      requires Shaped()
      modifies this, s
      ensures View() == Sponge.DripOne(old(View())).0 && r == Sponge.DripOne(old(View())).1
    {
      Update(1);
      var step1 := s[Add(z, k)];
      var step2 := s[Add(i, step1)];
      z := s[Add(j, step2)];
      r := z;
    }

    /** `drip()`: one key-stream byte, shuffling first iff input is pending. */
    method Drip() returns (r: Byte)
      requires Valid()
      modifies this, s
      ensures Valid() && View() == Sponge.Drip(old(View())).0 && r == Sponge.Drip(old(View())).1
    {
      Sponge.SqueezeValid(View(), 1);
      Sponge.FirstOutput(View());
      if a > 0 {
        Shuffle();
      }
      r := DripOne();
    }

    /** `squeeze(buf)`: fill buf with consecutive key-stream bytes. */
    method Squeeze(buf: array<Byte>)
      requires Valid() && buf != s
      modifies this, s, buf
      ensures Valid()
      ensures View() == Sponge.Squeeze(old(View()), buf.Length).0
      ensures buf[..] == Sponge.Squeeze(old(View()), buf.Length).1
    {
      Sponge.SqueezeValid(View(), buf.Length);
      if a > 0 {
        Shuffle();
      }
      DripOneInto(buf);
    }

    /** The output loop of `squeeze`: buf[idx] = dripOne() for every idx. */
    method DripOneInto(buf: array<Byte>)
      requires Shaped() && buf != s
      modifies this, s, buf
      ensures View() == Sponge.Stream(old(View()), buf.Length).0
      ensures buf[..] == Sponge.Stream(old(View()), buf.Length).1
    {
      ghost var p := View();
      for idx := 0 to buf.Length
        invariant View() == Sponge.Stream(p, idx).0
        invariant buf[..idx] == Sponge.Stream(p, idx).1
      {
        Sponge.StreamStep(p, idx);
        buf[idx] := DripOne();
        assert buf[..idx + 1] == buf[..idx] + [buf[idx]];
      }
      assert buf[..] == buf[..buf.Length];
    }

    /** `squeeze(count)`: a new array of count key-stream bytes. */
    method SqueezeCount(count: nat) returns (r: array<Byte>)
      requires Valid()
      modifies this, s
      ensures Valid() && fresh(r)
      ensures View() == Sponge.Squeeze(old(View()), count).0
      ensures r[..] == Sponge.Squeeze(old(View()), count).1
    {
      r := new Byte[count](_ => 0);
      Squeeze(r);
    }

    /** `squeezeXOR(buf, start, len)`: XOR consecutive key-stream bytes into
        buf[start..start + len) and nowhere else. The shuffle happens even when
        len is not positive. */
    method SqueezeXor(buf: array<Byte>, start: int, len: int)
      requires Valid() && buf != s
      requires len <= 0 || 0 <= start <= start + len <= buf.Length
      modifies this, s, buf
      ensures Valid()
      ensures View() == Sponge.Squeeze(old(View()), if len > 0 then len else 0).0
      ensures len > 0 ==> buf[..] == XorRange(old(buf[..]), start, start + len, Sponge.Squeeze(old(View()), len).1)
      ensures len <= 0 ==> buf[..] == old(buf[..])
    {
      SqueezeXorTo(buf, start, start + len);
      assert (if start + len > start then start + len - start else 0) == (if len > 0 then len else 0);
    }

    /** `squeezeXOR(buf)`: the whole buffer. */
    method SqueezeXorAll(buf: array<Byte>)
      requires Valid() && buf != s
      modifies this, s, buf
      ensures Valid()
      ensures View() == Sponge.Squeeze(old(View()), buf.Length).0
      ensures buf[..] == Xor(old(buf[..]), Sponge.Squeeze(old(View()), buf.Length).1)
    {
      SqueezeXor(buf, 0, buf.Length);
      XorRangeWhole(old(buf[..]), Sponge.Squeeze(old(View()), buf.Length).1);
      if buf.Length == 0 {
        assert buf[..] == [];
      }
    }

    /** `squeezeXOR(buf, start, end)` of the oldest engine: the third argument is
        the end of the range, not its length. */
    method SqueezeXorTo(buf: array<Byte>, start: int, end: int)
      requires Valid() && buf != s
      requires end <= start || 0 <= start <= end <= buf.Length
      modifies this, s, buf
      ensures Valid()
      ensures View() == Sponge.Squeeze(old(View()), if end > start then end - start else 0).0
      ensures end > start ==> buf[..] == XorRange(old(buf[..]), start, end, Sponge.Squeeze(old(View()), end - start).1)
      ensures end <= start ==> buf[..] == old(buf[..])
    {
      var n := if end > start then end - start else 0;
      Sponge.SqueezeValid(View(), n);
      if a > 0 {
        Shuffle();
      }
      if end <= start {
        assert View() == Sponge.Stream(Sponge.Prime(old(View())), 0).0;
        return;
      }
      DripOneXor(buf, start, end);
    }

    /** The output loop of `squeezeXOR`: buf[idx] ^= dripOne() for idx in
        [start, end). */
    method DripOneXor(buf: array<Byte>, start: int, end: int)
      requires Shaped() && buf != s
      requires 0 <= start <= end <= buf.Length
      modifies this, s, buf
      ensures View() == Sponge.Stream(old(View()), end - start).0
      ensures buf[..] == XorRange(old(buf[..]), start, end, Sponge.Stream(old(View()), end - start).1)
    {
      ghost var p := View();
      ghost var data := buf[..];
      ghost var ks: seq<Byte> := [];
      for idx := start to end
        invariant View() == Sponge.Stream(p, idx - start).0
        invariant ks == Sponge.Stream(p, idx - start).1
        invariant buf[..] == XorRange(data, start, idx, ks)
      {
        Sponge.StreamStep(p, idx - start);
        var d := DripOne();
        buf[idx] := XorByte(buf[idx], d);
        ks := ks + [d];
      }
    }

    /** `skip(n)`: n calls of `drip()`; a count that is not positive skips
        nothing. */
    method Skip(n: int)
      requires Valid()
      modifies this, s
      ensures Valid()
      ensures View() == Sponge.Drips(old(View()), if n > 0 then n else 0).0
    {
      ghost var st := View();
      var total := if n > 0 then n else 0;
      var count := 0;
      while count < total
        invariant count <= total
        invariant Shaped() && View() == Sponge.Drips(st, count).0
      {
        Sponge.DripsValid(st, count);
        Sponge.DripsStep(st, count);
        var _ := Drip();
        count := count + 1;
      }
      Sponge.DripsValid(st, count);
    }
  }

  /** `data` with bytes [start, end) XORed with consecutive key-stream bytes
      `ks` and every other byte left as it was. */
  function XorRange(data: seq<Byte>, start: int, end: int, ks: seq<Byte>): (r: seq<Byte>)
    requires 0 <= start <= end <= |data| && |ks| >= end - start
    ensures |r| == |data|
  {
    seq(|data|, n requires 0 <= n < |data| => if start <= n < end then XorByte(data[n], ks[n - start]) else data[n])
  }

  /** One byte of a range-XORed buffer. */
  lemma XorRangeAt(data: seq<Byte>, start: int, end: int, ks: seq<Byte>, n: int)
    requires 0 <= start <= end <= |data| && |ks| >= end - start && 0 <= n < |data|
    ensures XorRange(data, start, end, ks)[n] == if start <= n < end then XorByte(data[n], ks[n - start]) else data[n]
  {
  }

  /** An empty range changes nothing. */
  lemma XorRangeEmpty(data: seq<Byte>, at: int, ks: seq<Byte>)
    requires 0 <= at <= |data|
    ensures XorRange(data, at, at, ks) == data
  {
  }

  /** Extending the XORed range by one byte changes that byte alone. */
  lemma XorRangeStep(data: seq<Byte>, start: int, t: int, ks: seq<Byte>)
    requires 0 <= start && 0 <= t && start + t < |data| && |ks| > t
    ensures XorRange(data, start, start + t + 1, ks)
         == XorRange(data, start, start + t, ks)[start + t := XorByte(data[start + t], ks[t])]
  {
  }

  /** XORing the middle part of a three-part buffer. */
  lemma XorRangeMiddle(a: seq<Byte>, b: seq<Byte>, c: seq<Byte>, ks: seq<Byte>)
    requires |ks| >= |b|
    ensures XorRange(a + b + c, |a|, |a| + |b|, ks) == a + Xor(b, ks) + c
  {
    hide XorRange, Xor;
    var r := XorRange(a + b + c, |a|, |a| + |b|, ks);
    var q := a + Xor(b, ks) + c;
    forall n | 0 <= n < |r|
      ensures r[n] == q[n]
    {
      XorRangeAt(a + b + c, |a|, |a| + |b|, ks, n);
      if n < |a| {
      } else if n < |a| + |b| {
        assert q[n] == Xor(b, ks)[n - |a|];
      } else {
        assert q[n] == c[n - |a| - |b|];
      }
    }
  }

  /** Over the whole buffer, XORing a range is XORing the buffer. */
  lemma XorRangeWhole(data: seq<Byte>, ks: seq<Byte>)
    requires |ks| >= |data|
    ensures XorRange(data, 0, |data|, ks) == Xor(data, ks)
  {
  }
}
