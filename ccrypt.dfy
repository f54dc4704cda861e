/** The file format of the C tool (src/crypt.c) and of the Windows decrypter
    (MSVC_decrypter/SpritzDecrypt.cpp): a 76-byte header holding the IV, a
    random check value, its hash and the 64-byte payload key, then the body
    XORed with a key stream derived from that payload key. */
module CCrypt {
  import opened Bytes
  import opened Sponge
  import opened Streams
  import Hash
  import Kdf
  import Spritz

  /** KEY_LEN. */
  const KeyLen := 64
  /** HDR_LEN: HDR_KEY (12) + KEY_LEN. */
  const HdrLen := 12 + KeyLen

  /** The mask of the IV: the last four bytes of the 64-byte password hash. */
  function PwMask(pwHash: seq<Byte>): (r: seq<Byte>)
    requires |pwHash| == KeyLen
    ensures |r| == 4 && r == pwHash[KeyLen - 4..]
  {
    pwHash[60..64]
  }

  /** The engine that encrypts bytes 4..76: `keygen` run 20000 + iv[3] times
      over the password hash, then `generate_skipped_stream` of that key with
      iv[1] extra bytes dropped. */
  function HeaderStream(pwHash: seq<Byte>, iv: Kdf.Iv): (r: State)
    requires |pwHash| == KeyLen
    ensures Valid(r) && r.a == 0
  {
    Kdf.SkippedStreamReady(Kdf.KeygenKey(pwHash, iv, 20000 + iv[3] as int), iv[1]);
    Kdf.SkippedStream(Kdf.KeygenKey(pwHash, iv, 20000 + iv[3] as int), iv[1])
  }

  /** The key-stream bytes dropped between the check fields and the key: five
      plus the plaintext check byte 0. */
  function ExtraSkip(check0: Byte): (r: nat)
    ensures 5 <= r <= 260
  {
    5 + check0
  }

  /** The key stream that covers bytes 12..76, given the engine after the
      first eight bytes and the plaintext check byte 0. */
  function KeyPad(e1: State, check0: Byte): (r: seq<Byte>)
    ensures |r| == KeyLen
  {
    Squeeze(Drips(e1, ExtraSkip(check0)).0, KeyLen).1
  }

  /** Bytes 4..76 as `encrypt_header` leaves them: the check value and its
      hash XORed with eight squeezed bytes, the key with the 64 bytes that
      follow the extra skip. */
  function SealBody(e: State, body: seq<Byte>): (r: seq<Byte>)
    requires |body| == 72
    ensures |r| == 72
  {
    var (e1, k1) := Squeeze(e, 8);
    Xor(body[..8], k1) + Xor(body[8..], KeyPad(e1, body[0]))
  }

  /** Bytes 4..76 as `decrypt_header` leaves them, and its verdict. The check
      fields are decrypted first; when the check value does not hash to the
      value after it the key is left encrypted and the verdict is false. */
  function OpenBody(e: State, body: seq<Byte>): (r: (bool, seq<Byte>))
    requires |body| == 72
    ensures |r.1| == 72
  {
    var (e1, k1) := Squeeze(e, 8);
    var fields := Xor(body[..8], k1);
    if Hash.LongDigest(fields[..4], 4) != fields[4..8] then (false, fields + body[8..])
    else (true, fields + Xor(body[8..], KeyPad(e1, fields[0])))
  }

  /** `encrypt_header(header, pw_hash)` on a plaintext header. */
  function EncryptHeader(pwHash: seq<Byte>, header: seq<Byte>): (r: seq<Byte>)
    requires |pwHash| == KeyLen && |header| == HdrLen
    ensures |r| == HdrLen
  {
    Xor(header[..4], PwMask(pwHash)) + SealBody(HeaderStream(pwHash, header[..4]), header[4..])
  }

  /** `decrypt_header(header, pw_hash)`: its result and the header it leaves. */
  function DecryptHeader(pwHash: seq<Byte>, header: seq<Byte>): (r: (bool, seq<Byte>))
    requires |pwHash| == KeyLen && |header| == HdrLen
    ensures |r.1| == HdrLen
  {
    var iv := Xor(header[..4], PwMask(pwHash));
    var res := OpenBody(HeaderStream(pwHash, iv), header[4..]);
    (res.0, iv + res.1)
  }

  /** The check fields are consistent: bytes 8..12 are the 4-byte
      `spritz_mem_hash` of bytes 4..8. */
  predicate CheckHolds(header: seq<Byte>): (r: bool)
    requires |header| == HdrLen
    ensures r <==> header[8..12] == Hash.ShortDigest(header[4..8], 4)
  {
    Hash.LongDigest(header[4..8], 4) == header[8..12]
  }

  /** The plaintext header `encrypt_file` builds from 72 random bytes: IV and
      check value, the check's hash, then the payload key. */
  function PlainHeader(random: seq<Byte>): (r: seq<Byte>)
    requires |random| == 72
    ensures |r| == HdrLen && r[..8] == random[..8] && r[12..] == random[8..]
  {
    random[..8] + Hash.LongDigest(random[4..8], 4) + random[8..]
  }

  lemma PlainHeaderChecks(random: seq<Byte>)
    requires |random| == 72
    ensures CheckHolds(PlainHeader(random))
  {
    var h := PlainHeader(random);
    assert h[4..8] == random[4..8];
  }

  /** Both sides drop the same 5 + check[0] bytes, so a sealed body opens to
      itself whenever its check fields are consistent. */
  lemma {:induction false} BodyRoundTrip(e: State, body: seq<Byte>)
    requires |body| == 72 && Hash.LongDigest(body[..4], 4) == body[4..8]
    ensures OpenBody(e, SealBody(e, body)) == (true, body)
  {
    hide Squeeze, KeyPad, Xor, Hash.LongDigest;
    var (e1, k1) := Squeeze(e, 8);
    var sealed := SealBody(e, body);
    assert sealed[..8] == Xor(body[..8], k1);
    assert sealed[8..] == Xor(body[8..], KeyPad(e1, body[0]));
    XorTwice(body[..8], k1);
    XorTwice(body[8..], KeyPad(e1, body[0]));
    assert Xor(sealed[..8], k1)[..4] == body[..4];
    assert Xor(sealed[..8], k1)[4..8] == body[4..8];
    assert body[..8] + body[8..] == body;
  }

  /** decrypt_header inverts encrypt_header under the same password hash for
      every header whose check fields are consistent, which every header
      `encrypt_file` builds is. */
  lemma HeaderRoundTrip(pwHash: seq<Byte>, header: seq<Byte>)
    requires |pwHash| == KeyLen && |header| == HdrLen && CheckHolds(header)
    ensures DecryptHeader(pwHash, EncryptHeader(pwHash, header)) == (true, header)
  {
    hide HeaderStream, SealBody, OpenBody, Hash.LongDigest, Hash.ShortDigest, Hash.Digest;
    var sealed := EncryptHeader(pwHash, header);
    var iv := header[..4];
    assert sealed[..4] == Xor(iv, PwMask(pwHash));
    assert sealed[4..] == SealBody(HeaderStream(pwHash, iv), header[4..]);
    XorTwice(iv, PwMask(pwHash));
    assert header[4..][..4] == header[4..8] && header[4..][4..8] == header[8..12];
    BodyRoundTrip(HeaderStream(pwHash, iv), header[4..]);
    assert iv + header[4..] == header;
  }

  /** decrypt_header succeeds exactly when the decrypted check value hashes to
      the decrypted hash field; when it fails the key bytes are left as they
      arrived, so no payload key is released. */
  lemma DecryptVerdict(pwHash: seq<Byte>, header: seq<Byte>)
    requires |pwHash| == KeyLen && |header| == HdrLen
    ensures DecryptHeader(pwHash, header).0 <==> CheckHolds(DecryptHeader(pwHash, header).1)
    ensures !DecryptHeader(pwHash, header).0 ==> DecryptHeader(pwHash, header).1[12..] == header[12..]
  {
    hide HeaderStream, Squeeze, KeyPad, Xor, Hash.LongDigest, Hash.ShortDigest, Hash.Digest;
    var r := DecryptHeader(pwHash, header);
    var iv := Xor(header[..4], PwMask(pwHash));
    var e := HeaderStream(pwHash, iv);
    var fields := Xor(header[4..12], Squeeze(e, 8).1);
    assert header[4..][..8] == header[4..12];
    assert r.1 == iv + OpenBody(e, header[4..]).1;
    assert r.1[4..12] == fields;
    assert r.1[4..8] == fields[..4] && r.1[8..12] == fields[4..8];
  }

  lemma HeaderStreamIs(pwHash: seq<Byte>, iv: Kdf.Iv)
    requires |pwHash| == KeyLen
    ensures HeaderStream(pwHash, iv) == Kdf.SkippedStream(Kdf.KeygenKey(pwHash, iv, 20000 + iv[3] as int), iv[1])
  {
  }

  lemma KeyPadIs(e1: State, check0: Byte)
    ensures KeyPad(e1, check0) == Squeeze(Drips(e1, 5 + check0 as int).0, KeyLen).1
  {
  }

  lemma SealBodyIs(e: State, body: seq<Byte>)
    requires |body| == 72
    ensures SealBody(e, body) == Xor(body[..8], Squeeze(e, 8).1) + Xor(body[8..], KeyPad(Squeeze(e, 8).0, body[0]))
  {
  }

  lemma OpenBodyIs(e: State, body: seq<Byte>)
    requires |body| == 72
    ensures var fields := Xor(body[..8], Squeeze(e, 8).1);
              OpenBody(e, body)
              == if Hash.LongDigest(fields[..4], 4) != fields[4..8] then (false, fields + body[8..])
                 else (true, fields + Xor(body[8..], KeyPad(Squeeze(e, 8).0, fields[0])))
  {
  }

  /** The header after its IV is masked. */
  lemma MaskedIv(h0: seq<Byte>, m: seq<Byte>)
    requires |h0| == HdrLen && |m| >= 4
    ensures Spritz.XorRange(h0, 0, 4, m) == Xor(h0[..4], m) + h0[4..]
  {
    hide Spritz.XorRange, Xor;
    var none: seq<Byte> := [];
    assert h0 == none + h0[..4] + h0[4..];
    Spritz.XorRangeMiddle(none, h0[..4], h0[4..], m);
    assert none + Xor(h0[..4], m) + h0[4..] == Xor(h0[..4], m) + h0[4..];
  }

  /** Bytes 0..12 and the key after the two XOR steps on the IV and on the
      check fields. */
  lemma MaskAndFields(h0: seq<Byte>, m: seq<Byte>, k1: seq<Byte>)
    requires |h0| == HdrLen && |m| >= 4 && |k1| >= 8
    ensures Spritz.XorRange(Spritz.XorRange(h0, 0, 4, m), 4, 12, k1)
         == Xor(h0[..4], m) + Xor(h0[4..12], k1) + h0[12..]
  {
    hide Spritz.XorRange, Xor;
    MaskedIv(h0, m);
    var masked := Xor(h0[..4], m) + h0[4..];
    assert masked == Xor(h0[..4], m) + h0[4..12] + h0[12..];
    Spritz.XorRangeMiddle(Xor(h0[..4], m), h0[4..12], h0[12..], k1);
  }

  /** The XOR step on the key leaves the first twelve bytes alone. */
  lemma KeyRange(front: seq<Byte>, key: seq<Byte>, k2: seq<Byte>)
    requires |front| == 12 && |key| == KeyLen && |k2| >= KeyLen
    ensures Spritz.XorRange(front + key, 12, HdrLen, k2) == front + Xor(key, k2)
  {
    hide Spritz.XorRange, Xor;
    assert front + key == front + key + [];
    Spritz.XorRangeMiddle(front, key, [], k2);
    assert front + Xor(key, k2) + [] == front + Xor(key, k2);
  }

  /** `xor_arrays(tgt + tOff, other + oOff, len)`: len bytes of other XORed
      into tgt, one by one. */
  method XorArrays(tgt: array<Byte>, tOff: nat, other: array<Byte>, oOff: nat, len: nat)
    requires tOff + len <= tgt.Length && oOff + len <= other.Length && tgt != other
    modifies tgt
    ensures tgt[..] == Spritz.XorRange(old(tgt[..]), tOff, tOff + len, other[oOff..oOff + len])
  {
    ghost var ks := other[oOff..oOff + len];
    var left := len;
    var t := 0;
    while left > 0
      invariant t + left == len
      invariant tgt[..] == Spritz.XorRange(old(tgt[..]), tOff, tOff + t, ks)
    {
      Spritz.XorRangeAt(old(tgt[..]), tOff, tOff + t, ks, tOff + t);
      Spritz.XorRangeStep(old(tgt[..]), tOff, t, ks);
      tgt[tOff + t] := XorByte(tgt[tOff + t], other[oOff + t]);
      t, left := t + 1, left - 1;
    }
  }

  /** The first step of both header functions: the IV is XORed with the last
      four bytes of the password hash. */
  method MaskIv(header: array<Byte>, pwHash: array<Byte>)
    requires header.Length == HdrLen && pwHash.Length == KeyLen && header != pwHash
    modifies header
    ensures header[..] == Spritz.XorRange(old(header[..]), 0, 4, PwMask(pwHash[..]))
  {
    XorArrays(header, 0, pwHash, KeyLen - 4, 4);
    assert pwHash[KeyLen - 4..KeyLen - 4 + 4] == PwMask(pwHash[..]);
  }

  /** `keygen(pw_key, pw_hash, iv, 20000 + iv[3])` followed by
      `generate_skipped_stream(pw_key, iv[1])`. */
  method DeriveHeaderStream(pwHash: array<Byte>, iv: array<Byte>) returns (s: Spritz.SpritzCipher)
    requires pwHash.Length == KeyLen && iv.Length >= 4
    ensures fresh(s) && fresh(s.s) && s.Valid()
    ensures s.View() == HeaderStream(pwHash[..], iv[..4])
  {
    hide Kdf.KeygenKey, Kdf.SkippedStream;
    var pwKey := new Byte[KeyLen](_ => 0);
    Kdf.Keygen(pwKey, pwHash, iv, 20000 + iv[3] as int);
    assert pwHash[..64] == pwHash[..] && pwKey[..64] == pwKey[..];
    s := Kdf.GenerateSkippedStream(pwKey, iv[1]);
    HeaderStreamIs(pwHash[..], iv[..4]);
  }

  /** The tail of `encrypt_header`: the check fields XORed with eight
      squeezed bytes, 5 + check[0] bytes (the plaintext value) dropped, then
      the key XORed with the next 64. */
  method SealFields(s: Spritz.SpritzCipher, header: array<Byte>)
    requires s.Valid() && header.Length == HdrLen && header != s.s
    modifies s, s.s, header
    ensures header[..] == Spritz.XorRange(Spritz.XorRange(old(header[..]), 4, 12, Squeeze(old(s.View()), 8).1),
                                          12, HdrLen, KeyPad(Squeeze(old(s.View()), 8).0, old(header[4])))
  {
    hide Squeeze, Drips, KeyPad, Spritz.XorRange;
    ghost var e1 := Squeeze(s.View(), 8).0;
    ghost var check0 := header[4];
    var extraSkip: int := 5 + header[4] as int;
    s.SqueezeXor(header, 4, 8);
    s.Skip(extraSkip);
    s.SqueezeXor(header, 12, KeyLen);
    KeyPadIs(e1, check0);
  }

  /** `encrypt_header(header, pw_hash)`: the IV is masked with the end of the
      password hash; the key stream comes from the plaintext IV; the extra
      skip is taken from the check byte before it is encrypted. */
  method EncryptHeaderC(header: array<Byte>, pwHash: array<Byte>)
    requires header.Length == HdrLen && pwHash.Length == KeyLen && header != pwHash
    modifies header
    ensures header[..] == EncryptHeader(pwHash[..], old(header[..]))
  {
    hide HeaderStream, Kdf.KeygenKey, Kdf.SkippedStream, Squeeze, Drips, KeyPad, SealBody, Spritz.XorRange, Xor, EncryptHeader;
    ghost var h0 := header[..];
    var iv := Bytes.ToArray(header[..4]);
    MaskIv(header, pwHash);
    var s := DeriveHeaderStream(pwHash, iv);
    assert iv[..4] == h0[..4];
    SealFields(s, header);
    EncryptHeaderSteps(pwHash[..], h0);
  }

  /** The three in-place steps of `encrypt_header` (mask the IV, seal the
      check fields, seal the key) compose to EncryptHeader. */
  lemma EncryptHeaderSteps(pwHash: seq<Byte>, h0: seq<Byte>)
    requires |pwHash| == KeyLen && |h0| == HdrLen
    ensures var e := HeaderStream(pwHash, h0[..4]);
            var h1 := Spritz.XorRange(h0, 0, 4, PwMask(pwHash));
            Spritz.XorRange(Spritz.XorRange(h1, 4, 12, Squeeze(e, 8).1), 12, HdrLen, KeyPad(Squeeze(e, 8).0, h1[4]))
              == EncryptHeader(pwHash, h0)
  {
    hide HeaderStream, Kdf.KeygenKey, Kdf.SkippedStream, Squeeze, Drips, KeyPad, SealBody, Spritz.XorRange, Xor;
    var e := HeaderStream(pwHash, h0[..4]);
    var k1, e1 := Squeeze(e, 8).1, Squeeze(e, 8).0;
    var m := PwMask(pwHash);
    var a, b, kp := Xor(h0[..4], m), Xor(h0[4..12], k1), KeyPad(e1, h0[4]);
    Spritz.XorRangeAt(h0, 0, 4, m, 4);
    MaskAndFields(h0, m, k1);
    KeyRange(a + b, h0[12..], kp);
    SealBodyIs(e, h0[4..]);
    assert h0[4..][..8] == h0[4..12] && h0[4..][8..] == h0[12..] && h0[4..][0] == h0[4];
    assert a + b + Xor(h0[12..], kp) == a + (b + Xor(h0[12..], kp));
  }

  /** The check fields decrypted with eight squeezed bytes, and whether the
      check value hashes to the field after it (`spritz_mem_hash` into
      `rhash`, then `memcmp`). */
  method DecryptCheck(s: Spritz.SpritzCipher, header: array<Byte>) returns (ok: bool)
    requires s.Valid() && header.Length == HdrLen && header != s.s
    modifies s, s.s, header
    ensures s.Valid() && s.View() == Squeeze(old(s.View()), 8).0
    ensures header[..] == old(header[..4]) + Xor(old(header[4..12]), Squeeze(old(s.View()), 8).1) + old(header[12..])
    ensures ok <==> Hash.LongDigest(header[4..8], 4) == header[8..12]
  {
    hide Squeeze, Spritz.XorRange, Xor, Hash.LongDigest, Hash.ShortDigest, Hash.Digest;
    ghost var h1 := header[..];
    s.SqueezeXor(header, 4, 8);
    assert h1 == h1[..4] + h1[4..12] + h1[12..];
    Spritz.XorRangeMiddle(h1[..4], h1[4..12], h1[12..], Squeeze(old(s.View()), 8).1);
    var check := Bytes.ToArray(header[4..8]);
    var rhash := new Byte[4](_ => 0);
    var _ := Hash.MemHash(check, rhash);
    ok := rhash[..] == header[8..12];
  }

  /** The key decrypted after 5 + check[0] bytes are dropped. */
  method DecryptKey(s: Spritz.SpritzCipher, header: array<Byte>)
    requires s.Valid() && header.Length == HdrLen && header != s.s
    modifies s, s.s, header
    ensures header[..] == old(header[..12]) + Xor(old(header[12..]), KeyPad(old(s.View()), old(header[4])))
  {
    hide Squeeze, Drips, KeyPad, Spritz.XorRange, Xor;
    ghost var h2, e1 := header[..], s.View();
    var extraSkip: int := 5 + header[4] as int;
    s.Skip(extraSkip);
    s.SqueezeXor(header, 12, KeyLen);
    KeyPadIs(e1, h2[4]);
    assert h2 == h2[..12] + h2[12..];
    KeyRange(h2[..12], h2[12..], KeyPad(e1, h2[4]));
  }

  /** The tail of `decrypt_header`: when the decrypted check value's hash
      differs from the field after it the function returns false at once;
      otherwise the key is decrypted. */
  method OpenFields(s: Spritz.SpritzCipher, header: array<Byte>) returns (result: bool)
    requires s.Valid() && header.Length == HdrLen && header != s.s
    modifies s, s.s, header
    ensures result == OpenBody(old(s.View()), old(header[4..])).0
    ensures header[..] == old(header[..4]) + OpenBody(old(s.View()), old(header[4..])).1
  {
    hide Squeeze, Drips, KeyPad, Spritz.XorRange, Xor, Hash.LongDigest, OpenBody;
    ghost var h1, e := header[..], s.View();
    var ok := DecryptCheck(s, header);
    ghost var hc := header[..];
    if !ok {
      OpenRejected(e, h1, hc);
      return false;
    }
    DecryptKey(s, header);
    OpenAccepted(e, h1, hc, header[..]);
    result := true;
  }

  /** A header whose decrypted check fields disagree is left with only those
      fields decrypted: what `OpenBody` says of a rejected body. */
  lemma OpenRejected(e: State, h1: seq<Byte>, hc: seq<Byte>)
    requires |h1| == HdrLen
    requires hc == h1[..4] + Xor(h1[4..12], Squeeze(e, 8).1) + h1[12..]
    requires Hash.LongDigest(hc[4..8], 4) != hc[8..12]
    ensures OpenBody(e, h1[4..]) == (false, hc[4..]) && hc == h1[..4] + OpenBody(e, h1[4..]).1
  {
    hide Squeeze, Drips, KeyPad, Spritz.XorRange, Xor, Hash.LongDigest, Hash.ShortDigest, Hash.Digest, OpenBody;
    var body := h1[4..];
    assert body[..8] == h1[4..12] && body[8..] == h1[12..];
    var fields := Xor(body[..8], Squeeze(e, 8).1);
    assert hc[4..] == fields + body[8..];
    assert hc[4..8] == fields[..4] && hc[8..12] == fields[4..8];
    OpenBodyIs(e, body);
  }

  /** A header whose check fields agree ends with the key decrypted too: what
      `OpenBody` says of an accepted body. */
  lemma OpenAccepted(e: State, h1: seq<Byte>, hc: seq<Byte>, h3: seq<Byte>)
    requires |h1| == HdrLen
    requires hc == h1[..4] + Xor(h1[4..12], Squeeze(e, 8).1) + h1[12..]
    requires Hash.LongDigest(hc[4..8], 4) == hc[8..12]
    requires h3 == hc[..12] + Xor(hc[12..], KeyPad(Squeeze(e, 8).0, hc[4]))
    ensures OpenBody(e, h1[4..]).0 && h3 == h1[..4] + OpenBody(e, h1[4..]).1
  {
    hide Squeeze, Drips, KeyPad, Spritz.XorRange, Xor, Hash.LongDigest, Hash.ShortDigest, Hash.Digest, OpenBody;
    var body := h1[4..];
    OpenBodyIs(e, body);
    var fields := Xor(body[..8], Squeeze(e, 8).1);
    assert body[..8] == h1[4..12] && body[8..] == h1[12..];
    assert hc[4..8] == fields[..4] && hc[8..12] == fields[4..8];
    assert hc[..12] == h1[..4] + fields && hc[12..] == body[8..] && hc[4] == fields[0];
    var kp := KeyPad(Squeeze(e, 8).0, fields[0]);
    assert h1[..4] + fields + Xor(body[8..], kp) == h1[..4] + (fields + Xor(body[8..], kp));
  }

  /** `decrypt_header(header, pw_hash)`: the IV is unmasked in place and the
      key stream comes from the unmasked IV. */
  method DecryptHeaderC(header: array<Byte>, pwHash: array<Byte>) returns (result: bool)
    requires header.Length == HdrLen && pwHash.Length == KeyLen && header != pwHash
    modifies header
    ensures (result, header[..]) == DecryptHeader(pwHash[..], old(header[..]))
  {
    hide HeaderStream, Kdf.KeygenKey, Kdf.SkippedStream, Squeeze, Drips, KeyPad, OpenBody, Spritz.XorRange, Xor;
    ghost var h0 := header[..];
    ghost var m := PwMask(pwHash[..]);
    MaskIv(header, pwHash);
    MaskedIv(h0, m);
    ghost var h1 := header[..];
    assert h1[..4] == Xor(h0[..4], m) && h1[4..] == h0[4..];
    var s := DeriveHeaderStream(pwHash, header);
    result := OpenFields(s, header);
  }

  /** The payload key stream of `encrypt_file` and `decrypt_file`: an engine
      over the plaintext key bytes 12..76 with plaintext check byte 1 (header
      byte 5) as the extra skip. */
  function PayloadKeystream(header: seq<Byte>, n: nat): (r: seq<Byte>)
    requires |header| == HdrLen
    ensures |r| == n
  {
    Kdf.PayloadStream(header[12..], header[5], n)
  }

  /** The bytes `encrypt_file` writes: the encrypted header built from 72
      random bytes, then the file XORed with the payload key stream. */
  function EncryptFile(pwHash: seq<Byte>, random: seq<Byte>, plain: seq<Byte>): (r: seq<Byte>)
    requires |pwHash| == KeyLen && |random| == 72
    ensures |r| == HdrLen + |plain|
  {
    var header := PlainHeader(random);
    EncryptHeader(pwHash, header) + Xor(plain, PayloadKeystream(header, |plain|))
  }

  /** The bytes `decrypt_file` writes, or None when it stops: the file is
      shorter than the header (the Windows decrypter's "File too short!") or
      the header's check fails ("Bad password or corrupted file"). */
  function DecryptFile(pwHash: seq<Byte>, file: seq<Byte>): (r: Option<seq<Byte>>)
    requires |pwHash| == KeyLen
    ensures r.Some? ==> |r.value| == |file| - HdrLen
  {
    if |file| < HdrLen then None
    else
      var res := DecryptHeader(pwHash, file[..HdrLen]);
      if !res.0 then None
      else Some(Xor(file[HdrLen..], PayloadKeystream(res.1, |file| - HdrLen)))
  }

  /** decrypt_file recovers what encrypt_file encrypted under the same
      password hash, whatever the random bytes. */
  lemma FileRoundTrip(pwHash: seq<Byte>, random: seq<Byte>, plain: seq<Byte>)
    requires |pwHash| == KeyLen && |random| == 72
    ensures DecryptFile(pwHash, EncryptFile(pwHash, random, plain)) == Some(plain)
  {
    hide EncryptHeader, DecryptHeader, PayloadKeystream, Xor;
    var header := PlainHeader(random);
    var file := EncryptFile(pwHash, random, plain);
    assert file[..HdrLen] == EncryptHeader(pwHash, header);
    assert file[HdrLen..] == Xor(plain, PayloadKeystream(header, |plain|));
    PlainHeaderChecks(random);
    HeaderRoundTrip(pwHash, header);
    XorTwice(plain, PayloadKeystream(header, |plain|));
  }

  /** decrypt_file writes no bytes unless the file holds a whole header whose
      decrypted check value hashes to the field after it. (The target file
      itself is created and truncated before the header is read.) */
  lemma DecryptFileRejects(pwHash: seq<Byte>, file: seq<Byte>)
    requires |pwHash| == KeyLen
    ensures DecryptFile(pwHash, file).Some?
        <==> |file| >= HdrLen && CheckHolds(DecryptHeader(pwHash, file[..HdrLen]).1)
  {
    hide DecryptHeader, PayloadKeystream, Xor, CheckHolds;
    if |file| >= HdrLen {
      DecryptVerdict(pwHash, file[..HdrLen]);
    }
  }
}
