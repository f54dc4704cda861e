/** Key derivation: how each revision turns a password (and an IV) into the
    engine that encrypts a header, and how a payload key becomes the engine
    that encrypts the body. */
module Kdf {
  import opened Bytes
  import opened Sponge
  import Spritz
  import Hash

  /** The IV as the little-endian 32-bit counter `cipherStream` advances. */
  function Le32(iv: seq<Byte>): (v: nat)
    requires |iv| >= 4
    ensures v < 0x1_0000_0000
  {
    iv[0] as int + 0x100 * iv[1] as int + 0x1_0000 * iv[2] as int + 0x100_0000 * iv[3] as int
  }

  /** One step of the counter: iv[0] goes up by one, and each byte that wraps
      to zero carries into the next; bytes past the fourth are never touched. */
  function Increment(iv: seq<Byte>): (r: seq<Byte>)
    requires |iv| >= 4
    ensures |r| == |iv|
  {
    var b0 := Add(iv[0], 1);
    if b0 != 0 then iv[0 := b0]
    else
      var b1 := Add(iv[1], 1);
      if b1 != 0 then iv[0 := 0][1 := b1]
      else
        var b2 := Add(iv[2], 1);
        if b2 != 0 then iv[0 := 0][1 := 0][2 := b2]
        else iv[0 := 0][1 := 0][2 := 0][3 := Add(iv[3], 1)]
  }

  /** The carries make the first four bytes a counter modulo 2^32. */
  lemma IncrementCounts(iv: seq<Byte>)
    requires |iv| >= 4
    ensures Le32(Increment(iv)) == (Le32(iv) + 1) % 0x1_0000_0000
  {
    var r := Increment(iv);
    if iv[0] < 255 {
      assert r[0] == iv[0] + 1 && r[1..4] == iv[1..4];
    } else if iv[1] < 255 {
      assert r[0] == 0 && r[1] == iv[1] + 1 && r[2..4] == iv[2..4];
    } else if iv[2] < 255 {
      assert r[0] == 0 && r[1] == 0 && r[2] == iv[2] + 1 && r[3] == iv[3];
    } else if iv[3] < 255 {
      assert r[0] == 0 && r[1] == 0 && r[2] == 0 && r[3] == iv[3] + 1;
    } else {
      assert r[0] == 0 && r[1] == 0 && r[2] == 0 && r[3] == 0;
    }
  }

  /** One round of `cipherStream`: a reset engine absorbs the IV, a stop and the
      key, and the key is overwritten by as many squeezed bytes. */
  function Round(iv: seq<Byte>, key: seq<Byte>): (r: seq<Byte>)
    ensures |r| == |key|
  {
    Squeeze(AbsorbBytes(AbsorbStop(AbsorbBytes(Initial(), iv)), key), |key|).1
  }

  /** The IV and the key after n rounds of `round`; each round uses the IV as
      it stands and then advances the counter. */
  function Rounds(round: (seq<Byte>, seq<Byte>) -> seq<Byte>, iv: seq<Byte>, key: seq<Byte>, n: nat): (r: (seq<Byte>, seq<Byte>))
    requires |iv| >= 4
    ensures |r.0| == |iv|
    decreases n
  {
    if n == 0 then (iv, key)
    else
      var p := Rounds(round, iv, key, n - 1);
      (Increment(p.0), round(p.0, p.1))
  }

  /** A round that keeps the key's length keeps it over any number of rounds. */
  lemma {:induction false} RoundsKeepLength(round: (seq<Byte>, seq<Byte>) -> seq<Byte>, iv: seq<Byte>, key: seq<Byte>, n: nat)
    requires |iv| >= 4
    requires forall v, k :: |round(v, k)| == |k|
    ensures |Rounds(round, iv, key, n).1| == |key|
    decreases n
  {
    if n > 0 {
      RoundsKeepLength(round, iv, key, n - 1);
    }
  }

  /** The IV after n counter steps. */
  function Advance(iv: seq<Byte>, n: nat): (r: seq<Byte>)
    requires |iv| >= 4
    ensures |r| == |iv|
    decreases n
  {
    if n == 0 then iv else Increment(Advance(iv, n - 1))
  }

  /** n steps add n to the counter modulo 2^32 and leave bytes past the fourth
      as they were. */
  lemma {:induction false} AdvanceCounts(iv: seq<Byte>, n: nat)
    requires |iv| >= 4
    ensures Le32(Advance(iv, n)) == (Le32(iv) + n) % 0x1_0000_0000
    ensures Advance(iv, n)[4..] == iv[4..]
    decreases n
  {
    hide Le32;
    if n > 0 {
      var p := Advance(iv, n - 1);
      var x := Le32(iv) + (n - 1);
      AdvanceCounts(iv, n - 1);
      assert Le32(p) == x % 0x1_0000_0000;
      IncrementCounts(p);
      ModSucc(x);
      assert x + 1 == Le32(iv) + n;
    }
  }

  /** After n rounds the caller's IV has taken n counter steps. */
  lemma {:induction false} RoundsAdvance(round: (seq<Byte>, seq<Byte>) -> seq<Byte>, iv: seq<Byte>, key: seq<Byte>, n: nat)
    requires |iv| >= 4
    ensures Rounds(round, iv, key, n).0 == Advance(iv, n)
    decreases n
  {
    if n > 0 {
      RoundsAdvance(round, iv, key, n - 1);
    }
  }

  lemma ModSucc(x: int)
    ensures (x % 0x1_0000_0000 + 1) % 0x1_0000_0000 == (x + 1) % 0x1_0000_0000
  {
    var m := 0x1_0000_0000;
    assert x == m * (x / m) + x % m;
    if x % m + 1 == m {
      assert x + 1 == m * (x / m + 1);
    } else {
      assert x + 1 == m * (x / m) + (x % m + 1);
    }
  }

  /** The number of rounds: 20000 plus the IV's fourth byte as it was on entry. */
  function RoundCount(iv: seq<Byte>): (r: nat)
    requires |iv| >= 4
    ensures 20000 <= r < 20256
  {
    20000 + iv[3] as int
  }

  /** The key `cipherStream` derives: hash(512, password) put through the rounds. */
  function DeriveKey(password: seq<Byte>, iv: seq<Byte>): (r: seq<Byte>)
    requires |iv| >= 4
    ensures |r| == 64
  {
    Hash.DigestFacts(password, [64], 64);
    RoundsKeepLength(Round, iv, Hash.ShortDigest(password, 64), RoundCount(iv));
    Rounds(Round, iv, Hash.ShortDigest(password, 64), RoundCount(iv)).1
  }

  /** The engine `cipherStream` returns: reset, then the derived key absorbed. */
  function KeyedState(password: seq<Byte>, iv: seq<Byte>): (r: State)
    requires |iv| >= 4
    ensures r.a == 128 && r.w == 1
  {
    AbsorbBytesPending(Initial(), DeriveKey(password, iv));
    AbsorbBytes(Initial(), DeriveKey(password, iv))
  }

  lemma KeyedStateValid(password: seq<Byte>, iv: seq<Byte>)
    requires |iv| >= 4
    ensures Valid(KeyedState(password, iv))
  {
    InitialValid();
    AbsorbBytesValid(Initial(), DeriveKey(password, iv));
  }

  /** The counter step of `cipherStream`, in place on the caller's IV. */
  method IncrementIv(iv: array<Byte>)
    requires iv.Length >= 4
    modifies iv
    ensures iv[..] == Increment(old(iv[..]))
  {
    iv[0] := Add(iv[0], 1);
    if iv[0] == 0 {
      iv[1] := Add(iv[1], 1);
      if iv[1] == 0 {
        iv[2] := Add(iv[2], 1);
        if iv[2] == 0 {
          iv[3] := Add(iv[3], 1);
        }
      }
    }
  }

  /** The body of the `cipherStream` loop: reset, absorb the IV, a stop and the
      key, squeeze the key in place, then step the IV's counter. */
  method CipherRound(c: Spritz.SpritzCipher, iv: array<Byte>, keyBytes: array<Byte>)
    requires c.Shaped() && iv.Length >= 4 && iv != keyBytes && iv != c.s && keyBytes != c.s
    modifies c, c.s, iv, keyBytes
    ensures keyBytes[..] == Round(old(iv[..]), old(keyBytes[..]))
    ensures iv[..] == Increment(old(iv[..]))
  {
    c.Reset();
    c.AbsorbAll(iv);
    c.AbsorbStop();
    c.AbsorbAll(keyBytes);
    c.Squeeze(keyBytes);
    IncrementIv(iv);
  }

  /** The `cipherStream` loop: `count` rounds over the caller's IV and the key. */
  method RunRounds(c: Spritz.SpritzCipher, iv: array<Byte>, keyBytes: array<Byte>, count: nat)
    requires c.Shaped() && iv.Length >= 4 && iv != keyBytes && iv != c.s && keyBytes != c.s
    modifies c, c.s, iv, keyBytes
    ensures iv[..] == Rounds(Round, old(iv[..]), old(keyBytes[..]), count).0
    ensures keyBytes[..] == Rounds(Round, old(iv[..]), old(keyBytes[..]), count).1
  {
    ghost var iv0, k0 := iv[..], keyBytes[..];
    var n := 0;
    while n < count
      invariant 0 <= n <= count && c.Shaped()
      invariant iv[..] == Rounds(Round, iv0, k0, n).0 && keyBytes[..] == Rounds(Round, iv0, k0, n).1
    {
      CipherRound(c, iv, keyBytes);
      n := n + 1;
    }
  }

  /** The first part of `cipherStream`: the password hashed to 64 bytes, then
      20000 + iv[3] rounds on one engine; the count is fixed before the loop
      although the rounds advance iv[3]'s counter. */
  method DeriveKeyBytes(key: seq<Byte>, iv: array<Byte>) returns (c: Spritz.SpritzCipher, keyBytes: array<Byte>)
    requires iv.Length >= 4
    modifies iv
    ensures fresh(c) && fresh(c.s) && fresh(keyBytes) && c.Shaped() && keyBytes != c.s
    ensures keyBytes[..] == DeriveKey(key, old(iv[..]))
    ensures iv[..] == Advance(old(iv[..]), RoundCount(old(iv[..])))
  {
    ghost var iv0 := iv[..];
    keyBytes := Hash.DigestOf(key, 64);
    ghost var k0 := keyBytes[..];
    c := new Spritz.SpritzCipher();
    var iterations: int := 20000 + iv[3] as int;
    assert iterations == RoundCount(iv0);
    RunRounds(c, iv, keyBytes, iterations);
    RoundsAdvance(Round, iv0, k0, iterations);
    DerivedKeyIs(key, iv0, k0, keyBytes[..]);
  }

  /** `cipherStream(key, iv)`: the password (its UTF-8 bytes) becomes the
      derived key, and a reset engine absorbs it. The caller's IV is left
      advanced by as many counter steps as there were rounds. */
  method CipherStream(key: seq<Byte>, iv: array<Byte>) returns (c: Spritz.SpritzCipher)
    requires iv.Length >= 4
    modifies iv
    ensures fresh(c) && fresh(c.s) && c.Valid()
    ensures c.View() == KeyedState(key, old(iv[..]))
    ensures iv[..] == Advance(old(iv[..]), RoundCount(old(iv[..])))
  {
    var keyBytes;
    c, keyBytes := DeriveKeyBytes(key, iv);
    Rekey(c, keyBytes);
  }

  /** The end of `cipherStream`: the engine is reset and absorbs the key. */
  method Rekey(c: Spritz.SpritzCipher, keyBytes: array<Byte>)
    requires c.Shaped() && keyBytes != c.s
    modifies c, c.s
    ensures c.Valid() && c.View() == AbsorbBytes(Initial(), keyBytes[..])
  {
    c.Reset();
    c.AbsorbAll(keyBytes);
  }

  lemma DerivedKeyIs(password: seq<Byte>, iv: seq<Byte>, k0: seq<Byte>, k: seq<Byte>)
    requires |iv| >= 4 && k0 == Hash.ShortDigest(password, 64)
    requires k == Rounds(Round, iv, k0, RoundCount(iv)).1
    ensures k == DeriveKey(password, iv)
  {
  }

  /** The oldest `cipherStream`: no rounds; the engine absorbs hash(256, password)
      and, when an IV is given, a stop and the IV. */
  function OneShotState(password: seq<Byte>, iv: Option<seq<Byte>>): (r: State)
    ensures iv.None? ==> r.a == 64 && r.w == 1
    ensures iv.Some? && |iv.value| <= 31 ==> r.a == 65 + 2 * |iv.value| && r.w == 1
  {
    var keyed := AbsorbBytes(Initial(), Hash.ShortDigest(password, 32));
    AbsorbBytesPending(Initial(), Hash.ShortDigest(password, 32));
    match iv
    case None => keyed
    case Some(v) =>
      if |v| <= 31 then AbsorbBytesPending(AbsorbStop(keyed), v); AbsorbBytes(AbsorbStop(keyed), v)
      else AbsorbBytes(AbsorbStop(keyed), v)
  }

  /** The oldest `cipherStream(key, iv)`, where a null IV skips the stop and the IV. */
  method OneShotCipherStream(key: seq<Byte>, iv: array?<Byte>) returns (c: Spritz.SpritzCipher)
    ensures fresh(c) && fresh(c.s) && c.Valid()
    ensures c.View() == OneShotState(key, if iv == null then None else Some(iv[..]))
  {
    var pwhash := Hash.DigestOf(key, 32);
    c := new Spritz.SpritzCipher();
    c.AbsorbAll(pwhash);
    if iv != null {
      c.AbsorbStop();
      c.AbsorbAll(iv);
    }
  }

  /** The four bytes of an IV as the C revision keeps them. */
  type Iv = v: seq<Byte> | |v| == 4 witness [0, 0, 0, 0]

  /** What a `keygen` round works on: the engine, the key being derived and
      the IV copy. */
  datatype Stage = Stage(st: State, key: seq<Byte>, ivCopy: Iv)

  /** One round of the C `keygen`. The engine is never reset between rounds: it
      absorbs the IV copy, a stop, the original IV from byte (copy[0] & 3) on, a
      stop, the key and a stop, then drips the new key and the new IV copy. */
  function KeygenRound(p: Stage, iv: Iv): (r: Stage)
    ensures |r.key| == |p.key|
  {
    var bias := p.ivCopy[0] % 4;
    var absorbed := AbsorbStop(AbsorbBytes(AbsorbStop(AbsorbBytes(AbsorbStop(AbsorbBytes(p.st, p.ivCopy)), iv[bias..])), p.key));
    var (st2, key) := Squeeze(absorbed, |p.key|);
    var (st3, next) := Squeeze(st2, 4);
    Stage(st3, key, next)
  }

  /** n rounds of `round` against the original IV; a round that keeps the
      key's length keeps it over any number of rounds. */
  function KeygenRounds(round: (Stage, Iv) -> Stage, p: Stage, iv: Iv, n: nat): (r: Stage)
    ensures (forall q, v :: |round(q, v).key| == |q.key|) ==> |r.key| == |p.key|
    decreases n
  {
    if n == 0 then p else round(KeygenRounds(round, p, iv, n - 1), iv)
  }

  /** The key `keygen` leaves in tgt. */
  function KeygenKey(hashedPw: seq<Byte>, iv: Iv, times: nat): (r: seq<Byte>)
    requires |hashedPw| == 64
    ensures |r| == 64
  {
    KeygenRounds(KeygenRound, Stage(Initial(), hashedPw, iv), iv, times).key
  }

  /** The engine and the two working arrays of `keygen` as a stage. */
  ghost function Snapshot(s: Spritz.SpritzCipher, key: array<Byte>, ivCopy: array<Byte>): Stage
    reads s, s.s, key, ivCopy
    requires s.Shaped() && ivCopy.Length == 4
  {
    Stage(s.View(), key[..], ivCopy[..])
  }

  /** The body of the `keygen` loop on the engine and the two working arrays. */
  method KeygenStep(s: Spritz.SpritzCipher, key: array<Byte>, ivCopy: array<Byte>, ivOrig: array<Byte>)
    requires s.Valid() && ivCopy.Length == 4 && ivOrig.Length == 4
    requires key != s.s && ivCopy != s.s && ivOrig != s.s
    requires key != ivCopy && key != ivOrig && ivCopy != ivOrig
    modifies s, s.s, key, ivCopy
    ensures s.Valid()
    ensures Snapshot(s, key, ivCopy) == KeygenRound(old(Snapshot(s, key, ivCopy)), ivOrig[..])
  {
    var bias := ivCopy[0] % 4;
    assert ivOrig[bias..4] == ivOrig[..][bias..];
    s.AbsorbAll(ivCopy);
    s.AbsorbStop();
    s.AbsorbRange(ivOrig, bias, 4);
    s.AbsorbStop();
    s.AbsorbAll(key);
    s.AbsorbStop();
    s.Squeeze(key);
    s.Squeeze(ivCopy);
  }

  /** The `keygen` loop: `times` rounds, counted down. */
  method KeygenLoop(s: Spritz.SpritzCipher, key: array<Byte>, ivCopy: array<Byte>, ivOrig: array<Byte>, times: nat)
    requires s.Valid() && ivCopy.Length == 4 && ivOrig.Length == 4
    requires key != s.s && ivCopy != s.s && ivOrig != s.s
    requires key != ivCopy && key != ivOrig && ivCopy != ivOrig
    modifies s, s.s, key, ivCopy
    ensures Snapshot(s, key, ivCopy) == KeygenRounds(KeygenRound, old(Snapshot(s, key, ivCopy)), ivOrig[..], times)
  {
    ghost var p0 := Snapshot(s, key, ivCopy);
    ghost var done: nat := 0;
    var left := times;
    while left > 0
      invariant 0 <= left && done + left == times && s.Valid()
      invariant Snapshot(s, key, ivCopy) == KeygenRounds(KeygenRound, p0, ivOrig[..], done)
    {
      KeygenStep(s, key, ivCopy, ivOrig);
      left, done := left - 1, done + 1;
    }
    assert done == times;
  }

  /** `keygen(tgt, hashed_pw, iv, times)`: overwrites exactly the KEY_LEN (64)
      first bytes of tgt and works on a copy of the IV, so iv is never written
      (it is not in the modifies clause). */
  method Keygen(tgt: array<Byte>, hashedPw: array<Byte>, iv: array<Byte>, times: int)
    requires tgt.Length >= 64 && hashedPw.Length >= 64 && iv.Length >= 4 && times >= 0
    requires tgt != hashedPw && tgt != iv
    modifies tgt
    ensures tgt[..64] == KeygenKey(hashedPw[..64], iv[..4], times)
    ensures tgt[64..] == old(tgt[64..])
  {
    var key := KeygenRun(hashedPw, iv, times);
    CopyPrefix(tgt, key, 64);
  }

  /** The work of `keygen` on its local copies: the key (starting as the hashed
      password), the IV copy and the original IV, on a fresh engine. */
  method KeygenRun(hashedPw: array<Byte>, iv: array<Byte>, times: nat) returns (key: array<Byte>)
    requires hashedPw.Length >= 64 && iv.Length >= 4
    ensures fresh(key) && key.Length == 64
    ensures key[..] == KeygenKey(hashedPw[..64], iv[..4], times)
  {
    hide KeygenRounds, KeygenRound, KeygenKey, Squeeze, AbsorbBytes, AbsorbStop;
    ghost var pw, v: Iv := hashedPw[..64], iv[..4];
    key := ToArray(hashedPw[..64]);
    var ivCopy := ToArray(iv[..4]);
    var ivOrig := ToArray(iv[..4]);
    var s := new Spritz.SpritzCipher();
    ghost var p0 := Stage(Initial(), pw, v);
    assert Snapshot(s, key, ivCopy) == p0;
    KeygenLoop(s, key, ivCopy, ivOrig, times);
    ghost var r := KeygenRounds(KeygenRound, p0, v, times);
    assert Snapshot(s, key, ivCopy) == r;
    KeygenKeyIs(pw, v, times);
  }

  lemma KeygenKeyIs(pw: seq<Byte>, v: Iv, times: nat)
    requires |pw| == 64
    ensures KeygenKey(pw, v, times) == KeygenRounds(KeygenRound, Stage(Initial(), pw, v), v, times).key
  {
  }

  /** `memcpy(dest, src, n)`. */
  method CopyPrefix(dest: array<Byte>, src: array<Byte>, n: nat)
    requires n <= dest.Length && n <= src.Length && dest != src
    modifies dest
    ensures dest[..n] == src[..n] && dest[n..] == old(dest[n..])
  {
    forall t | 0 <= t < n {
      dest[t] := src[t];
    }
    assert dest[..n] == src[..n];
  }

  /** `spritz_crypt(pw, iv)`: a fresh engine that has absorbed the password, a
      stop and the IV. */
  method SpritzCrypt(pw: array<Byte>, iv: array<Byte>) returns (c: Spritz.SpritzCipher)
    ensures fresh(c) && c.Valid()
    ensures c.View() == AbsorbBytes(AbsorbStop(AbsorbBytes(Initial(), pw[..])), iv[..])
  {
    c := new Spritz.SpritzCipher();
    c.AbsorbAll(pw);
    c.AbsorbStop();
    c.AbsorbAll(iv);
  }

  /** The engine that encrypts a payload: a fresh engine that has absorbed the
      key, with 2048 + skip key-stream bytes thrown away. */
  function SkippedStream(key: seq<Byte>, skip: nat): (r: State)
    ensures r.a == 0
  {
    Drips(AbsorbBytes(Initial(), key), 2048 + skip).0
  }

  /** The key stream such an engine produces from there on. */
  function PayloadStream(key: seq<Byte>, skip: nat, n: nat): (r: seq<Byte>)
    ensures |r| == n
  {
    Drips(SkippedStream(key, skip), n).1
  }

  /** A skipped stream is a valid engine with nothing pending, so its squeezes
      and its drips are the same bytes, however they are interleaved. */
  lemma SkippedStreamReady(key: seq<Byte>, skip: nat)
    ensures Valid(SkippedStream(key, skip)) && SkippedStream(key, skip).a == 0
  {
    InitialValid();
    AbsorbBytesValid(Initial(), key);
    DripsValid(AbsorbBytes(Initial(), key), 2048 + skip);
    DripsLeaveNothingPending(AbsorbBytes(Initial(), key), 2048 + skip);
  }

  /** `generate_skipped_stream(key, skip_amt)`: absorb KEY_LEN key bytes, then
      2048 + skip_amt drips. */
  method GenerateSkippedStream(key: array<Byte>, skipAmt: Byte) returns (c: Spritz.SpritzCipher)
    requires key.Length >= 64
    ensures fresh(c) && fresh(c.s) && c.Valid()
    ensures c.View() == SkippedStream(key[..64], skipAmt)
  {
    c := new Spritz.SpritzCipher();
    c.AbsorbRange(key, 0, 64);
    c.Skip(2048 + skipAmt);
  }
}
