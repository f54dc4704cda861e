/** `base64_encode` of the C revision (src/b64.c): the standard alphabet of
    section 4 of RFC 4648, three bytes to four characters, '=' padding, a
    NUL terminator, and no output at all (NULL) for empty input. */
module Base64 {
  import opened Bytes

  /** The source's table, written as its four runs. */
  function Letters(): string
  {
    Upper() + Lower() + Digits() + "+/"
  }

  function Upper(): string { "ABCDEFGHIJKLMNOPQRSTUVWXYZ" }
  function Lower(): string { "abcdefghijklmnopqrstuvwxyz" }
  function Digits(): string { "0123456789" }

  /** The alphabet by ranges: 'A'..'Z', 'a'..'z', '0'..'9', '+', '/'. */
  function Letter(v: nat): (c: char)
    requires v < 64
    ensures c != '=' && c != '\0'
  {
    if v < 26 then ('A' as int + v) as char
    else if v < 52 then ('a' as int + (v - 26)) as char
    else if v < 62 then ('0' as int + (v - 52)) as char
    else if v == 62 then '+'
    else '/'
  }

  lemma UpperIsRange()
    ensures |Upper()| == 26 && forall v :: 0 <= v < 26 ==> Upper()[v] == ('A' as int + v) as char
  {
  }

  lemma LowerIsRange()
    ensures |Lower()| == 26 && forall v :: 0 <= v < 26 ==> Lower()[v] == ('a' as int + v) as char
  {
  }

  lemma DigitsIsRange()
    ensures |Digits()| == 10 && forall v :: 0 <= v < 10 ==> Digits()[v] == ('0' as int + v) as char
  {
  }

  /** The table in the source is the alphabet by ranges. */
  lemma LettersAreAlphabet()
    ensures |Letters()| == 64
    ensures forall v :: 0 <= v < 64 ==> Letters()[v] == Letter(v)
  {
    UpperIsRange();
    LowerIsRange();
    DigitsIsRange();
    hide Upper, Lower, Digits;
    var s := Letters();
    forall v | 0 <= v < 64
      ensures s[v] == Letter(v)
    {
      if v < 26 {
        assert s[v] == Upper()[v];
      } else if v < 52 {
        assert s[v] == Lower()[v - 26];
      } else if v < 62 {
        assert s[v] == Digits()[v - 52];
      }
    }
  }

  /** The value of an alphabet character; None for anything else. */
  function LetterValue(c: char): (r: Option<nat>)
    ensures r.Some? ==> r.value < 64
  {
    if 'A' <= c <= 'Z' then Some(c as int - 'A' as int)
    else if 'a' <= c <= 'z' then Some(c as int - 'a' as int + 26)
    else if '0' <= c <= '9' then Some(c as int - '0' as int + 52)
    else if c == '+' then Some(62)
    else if c == '/' then Some(63)
    else None
  }

  lemma LetterValueOfLetter(v: nat)
    requires v < 64
    ensures LetterValue(Letter(v)) == Some(v)
  {
  }

  // The four 6-bit fields of a group of three bytes, as the source shifts
  // and masks them. The masks (& 63, & 15, & 3) change nothing on values
  // that come from bytes, and the shifted parts do not overlap, so the
  // source's `|` is `+` here.

  /** `in0 >> 2`: the top six bits of the first byte. */
  function Top(b0: Byte): (v: nat)
    ensures v < 64
  {
    b0 / 4
  }

  /** `(in0 & 3) << 4 | in1 >> 4`: the low two bits of the first byte, then
      the top four of the second. */
  function Second(b0: Byte, b1: Byte): (v: nat)
    ensures v < 64
  {
    b0 % 4 * 16 + b1 / 16
  }

  /** `(in1 & 15) << 2 | in2 >> 6`: the low four bits of the second byte,
      then the top two of the third. */
  function Third(b1: Byte, b2: Byte): (v: nat)
    ensures v < 64
  {
    b1 % 16 * 4 + b2 / 64
  }

  /** `in2 & 63`: the low six bits of the third byte. */
  function Bottom(b2: Byte): (v: nat)
    ensures v < 64
  {
    b2 % 64
  }

  /** The four characters of a full group, as the loop writes them. */
  function Group(b0: Byte, b1: Byte, b2: Byte): (r: string)
    ensures |r| == 4
  {
    [Letter(Top(b0)), Letter(Second(b0, b1)), Letter(Third(b1, b2)), Letter(Bottom(b2))]
  }

  /** A one-byte tail: the second character carries the low two bits of b0
      followed by zero bits (`(in0 & 3) << 4`), then "==". */
  function Tail1(b0: Byte): (r: string)
    ensures |r| == 4
  {
    [Letter(Top(b0)), Letter(Second(b0, 0)), '=', '=']
  }

  /** A two-byte tail: the third character carries the low four bits of b1
      followed by zero bits (`(in1 & 15) << 2`), then "=". */
  function Tail2(b0: Byte, b1: Byte): (r: string)
    ensures |r| == 4
  {
    [Letter(Top(b0)), Letter(Second(b0, b1)), Letter(Third(b1, 0)), '=']
  }

  /** The characters `base64_encode` writes before its NUL. */
  function Encode(data: seq<Byte>): (r: string)
    ensures |r| % 4 == 0
    decreases |data|
  {
    if |data| >= 3 then Group(data[0], data[1], data[2]) + Encode(data[3..])
    else if |data| == 2 then Tail2(data[0], data[1])
    else if |data| == 1 then Tail1(data[0])
    else []
  }

  /** The encoding holds no NUL, so the terminator `base64_encode` appends
      ends it, and '=' appears only in the last two positions. */
  lemma {:induction false} EncodeCharacters(data: seq<Byte>)
    ensures forall t :: 0 <= t < |Encode(data)| ==> Encode(data)[t] != '\0'
    ensures forall t :: 0 <= t < |Encode(data)| - 2 ==> Encode(data)[t] != '='
    decreases |data|
  {
    if |data| >= 3 {
      EncodeCharacters(data[3..]);
      var g, rest := Group(data[0], data[1], data[2]), Encode(data[3..]);
      assert Encode(data) == g + rest;
      forall t | 0 <= t < |g + rest|
        ensures (g + rest)[t] != '\0' && (t < |g + rest| - 2 ==> (g + rest)[t] != '=')
      {
        if t >= 4 {
          assert (g + rest)[t] == rest[t - 4];
        }
      }
    }
  }

  /** Four characters for every started group of three bytes: the length
      the source allocates, less its NUL. */
  lemma {:induction false} EncodeLength(data: seq<Byte>)
    ensures |Encode(data)| == (|data| + 2) / 3 * 4
    decreases |data|
  {
    if |data| >= 3 {
      EncodeLength(data[3..]);
      assert (|data| + 2) / 3 == (|data[3..]| + 2) / 3 + 1;
    }
  }

  /** What `base64_encode` returns: NULL for empty input, otherwise the
      encoding (the NUL after it is the terminator of a C string). */
  function Base64Encode(data: seq<Byte>): (r: Option<string>)
    ensures r == None <==> data == []
    ensures r.Some? ==> |r.value| == (|data| + 2) / 3 * 4
  {
    EncodeLength(data);
    if data == [] then None else Some(Encode(data))
  }

  /** Section 4 of RFC 4648: the 24-bit value of a group, cut into four
      6-bit values, most significant first. */
  function Sextets(n: nat): (r: seq<nat>)
    requires n < 0x100_0000
    ensures |r| == 4 && forall t :: 0 <= t < 4 ==> r[t] < 64
  {
    [n / 0x4_0000, n / 0x1000 % 64, n / 64 % 64, n % 64]
  }

  /** The source's shifts and masks cut the 24-bit value of b0 b1 b2 where
      the RFC does. */
  lemma FieldsAreSextets(b0: Byte, b1: Byte, b2: Byte)
    ensures Sextets(b0 * 0x1_0000 + b1 * 0x100 + b2) == [Top(b0), Second(b0, b1), Third(b1, b2), Bottom(b2)]
  {
    var n := b0 * 0x1_0000 + b1 * 0x100 + b2;
    QuotientTop(b0, b1, b2);
    QuotientSecond(b0, b1, b2);
    QuotientThird(b0, b1, b2);
    QuotientBottom(b0, b1, b2);
    hide Top, Second, Third, Bottom;
    assert Sextets(n) == [n / 0x4_0000, n / 0x1000 % 64, n / 64 % 64, n % 64];
  }

  // The arithmetic behind FieldsAreSextets, one field at a time.

  lemma QuotientTop(b0: Byte, b1: Byte, b2: Byte)
    ensures (b0 * 0x1_0000 + b1 * 0x100 + b2) / 0x4_0000 == Top(b0)
  {
    var n := b0 * 0x1_0000 + b1 * 0x100 + b2;
    assert n == b0 / 4 * 0x4_0000 + (b0 % 4 * 0x1_0000 + b1 * 0x100 + b2);
  }

  lemma QuotientSecond(b0: Byte, b1: Byte, b2: Byte)
    ensures (b0 * 0x1_0000 + b1 * 0x100 + b2) / 0x1000 % 64 == Second(b0, b1)
  {
    var n := b0 * 0x1_0000 + b1 * 0x100 + b2;
    var k := b0 * 16 + b1 / 16;
    assert n / 0x1000 == k by {
      assert n == k * 0x1000 + (b1 % 16 * 0x100 + b2);
    }
    assert k == b0 / 4 * 64 + (b0 % 4 * 16 + b1 / 16);
  }

  lemma QuotientThird(b0: Byte, b1: Byte, b2: Byte)
    ensures (b0 * 0x1_0000 + b1 * 0x100 + b2) / 64 % 64 == Third(b1, b2)
  {
    var h1, l1, h2, l2 := b1 / 16, b1 % 16, b2 / 64, b2 % 64;
    assert b1 == h1 * 16 + l1 && b2 == h2 * 64 + l2;
    var k := b0 * 0x400 + h1 * 64 + l1 * 4 + h2;
    Div64(k, l2);
    assert b0 * 0x1_0000 + b1 * 0x100 + b2 == k * 64 + l2;
    Div64(b0 * 16 + h1, l1 * 4 + h2);
  }

  /** Division by 64 of a number given by its quotient and remainder. */
  lemma Div64(k: int, r: int)
    requires 0 <= r < 64
    ensures (k * 64 + r) / 64 == k && (k * 64 + r) % 64 == r
  {
  }

  lemma QuotientBottom(b0: Byte, b1: Byte, b2: Byte)
    ensures (b0 * 0x1_0000 + b1 * 0x100 + b2) % 64 == Bottom(b2)
  {
    var n := b0 * 0x1_0000 + b1 * 0x100 + b2;
    assert n == (b0 * 0x400 + b1 * 4 + b2 / 64) * 64 + b2 % 64;
  }

  /** A full group is the RFC's four 6-bit values of b0 b1 b2 as one
      24-bit number, each looked up in the alphabet. */
  lemma GroupIsStandard(b0: Byte, b1: Byte, b2: Byte)
    ensures var v := Sextets(b0 * 0x1_0000 + b1 * 0x100 + b2);
            Group(b0, b1, b2) == [Letter(v[0]), Letter(v[1]), Letter(v[2]), Letter(v[3])]
  {
    FieldsAreSextets(b0, b1, b2);
  }

  /** A tail is the RFC's encoding of the bytes padded with zero bytes, cut
      after the characters those bytes reach, then padded with '='. */
  lemma TailsAreStandard(b0: Byte, b1: Byte)
    ensures var v := Sextets(b0 * 0x1_0000);
            Tail1(b0) == [Letter(v[0]), Letter(v[1]), '=', '=']
    ensures var v := Sextets(b0 * 0x1_0000 + b1 * 0x100);
            Tail2(b0, b1) == [Letter(v[0]), Letter(v[1]), Letter(v[2]), '=']
  {
    FieldsAreSextets(b0, 0, 0);
    FieldsAreSextets(b0, b1, 0);
  }

  /** The bits a tail's last character carries below the data are zero. */
  lemma PaddingBitsZero(b0: Byte, b1: Byte)
    ensures LetterValue(Tail1(b0)[1]).Some? && LetterValue(Tail1(b0)[1]).value % 16 == 0
    ensures LetterValue(Tail2(b0, b1)[2]).Some? && LetterValue(Tail2(b0, b1)[2]).value % 4 == 0
  {
    LetterValueOfLetter(Second(b0, 0));
    LetterValueOfLetter(Third(b1, 0));
  }

  /** The byte whose top six bits are v0 and low two are the top of v1. */
  function High(v0: nat, v1: nat): Byte
    requires v0 < 64 && v1 < 64
  {
    v0 * 4 + v1 / 16
  }

  /** The byte made of the low four bits of v1 and the top four of v2. */
  function Middle(v1: nat, v2: nat): Byte
    requires v1 < 64 && v2 < 64
  {
    v1 % 16 * 16 + v2 / 4
  }

  /** The byte made of the low two bits of v2 and all of v3. */
  function Low(v2: nat, v3: nat): Byte
    requires v2 < 64 && v3 < 64
  {
    v2 % 4 * 64 + v3
  }

  /** A decoder for the encoder's output, the partner the round trip is
      stated against: groups of four alphabet characters, the last of which
      may end in "=" or "==" with zero padding bits. */
  function Decode(s: string): (r: Option<seq<Byte>>)
    decreases |s|
  {
    if s == [] then Some([])
    else if |s| < 4 then None
    else
      var v0, v1, v2, v3 := LetterValue(s[0]), LetterValue(s[1]), LetterValue(s[2]), LetterValue(s[3]);
      if v0.None? || v1.None? then None
      else if v2.None? then
        if |s| == 4 && s[2] == '=' && s[3] == '=' && v1.value % 16 == 0 then Some([High(v0.value, v1.value)]) else None
      else if v3.None? then
        if |s| == 4 && s[3] == '=' && v2.value % 4 == 0 then Some([High(v0.value, v1.value), Middle(v1.value, v2.value)]) else None
      else
        var rest := Decode(s[4..]);
        if rest.None? then None
        else Some([High(v0.value, v1.value), Middle(v1.value, v2.value), Low(v2.value, v3.value)] + rest.value)
  }

  /** The encoder's shifts and masks, undone. */
  lemma Rejoin(b0: Byte, b1: Byte, b2: Byte)
    ensures High(Top(b0), Second(b0, b1)) == b0
    ensures Middle(Second(b0, b1), Third(b1, b2)) == b1
    ensures Low(Third(b1, b2), Bottom(b2)) == b2
  {
    assert Second(b0, b1) / 16 == b0 % 4;
    assert Second(b0, b1) % 16 == b1 / 16;
    assert Third(b1, b2) / 4 == b1 % 16;
    assert Third(b1, b2) % 4 == b2 / 64;
  }

  /** The four characters of a full group decode to its three bytes, and
      decoding goes on with what follows. */
  lemma DecodeGroup(b0: Byte, b1: Byte, b2: Byte, rest: string)
    ensures var r := Decode(rest);
            Decode(Group(b0, b1, b2) + rest) == if r.None? then None else Some([b0, b1, b2] + r.value)
  {
    hide Letter, LetterValue, High, Middle, Low, Top, Second, Third, Bottom;
    var s := Group(b0, b1, b2) + rest;
    LetterValueOfLetter(Top(b0));
    LetterValueOfLetter(Second(b0, b1));
    LetterValueOfLetter(Third(b1, b2));
    LetterValueOfLetter(Bottom(b2));
    Rejoin(b0, b1, b2);
    assert s[4..] == rest;
  }

  /** What the decoder relies on in a tail: the zero bits below the data
      and a pad character that is not a letter. */
  lemma PadFacts(b0: Byte, b1: Byte)
    ensures Second(b0, 0) % 16 == 0 && Third(b1, 0) % 4 == 0
    ensures LetterValue('=') == None
  {
  }

  /** A one-byte tail decodes to that byte. */
  lemma DecodeTail1(b0: Byte)
    ensures Decode(Tail1(b0)) == Some([b0])
  {
    hide Letter, LetterValue, High, Middle, Low, Top, Second, Third, Bottom;
    LetterValueOfLetter(Top(b0));
    LetterValueOfLetter(Second(b0, 0));
    Rejoin(b0, 0, 0);
    PadFacts(b0, 0);
  }

  /** A two-byte tail decodes to those bytes. */
  lemma DecodeTail2(b0: Byte, b1: Byte)
    ensures Decode(Tail2(b0, b1)) == Some([b0, b1])
  {
    hide Letter, LetterValue, High, Middle, Low, Top, Second, Third, Bottom;
    LetterValueOfLetter(Top(b0));
    LetterValueOfLetter(Second(b0, b1));
    LetterValueOfLetter(Third(b1, 0));
    Rejoin(b0, b1, 0);
    PadFacts(b0, b1);
  }

  /** Decoding the encoder's output gives the bytes back: the encoding loses
      nothing and its padding is unambiguous. */
  lemma {:induction false} RoundTrip(data: seq<Byte>)
    ensures Decode(Encode(data)) == Some(data)
    decreases |data|
  {
    if |data| >= 3 {
      RoundTrip(data[3..]);
      DecodeGroup(data[0], data[1], data[2], Encode(data[3..]));
      assert data == [data[0], data[1], data[2]] + data[3..];
    } else if |data| == 2 {
      DecodeTail2(data[0], data[1]);
      assert data == [data[0], data[1]];
    } else if |data| == 1 {
      DecodeTail1(data[0]);
      assert data == [data[0]];
    }
  }

  /** Encoding works group by group: a prefix whose length is a multiple of
      three encodes on its own. */
  lemma {:induction false} EncodeAppend(d: seq<Byte>, t: seq<Byte>)
    requires |d| % 3 == 0
    ensures Encode(d + t) == Encode(d) + Encode(t)
    decreases |d|
  {
    if d != [] {
      assert (d + t)[3..] == d[3..] + t;
      assert (d + t)[..3] == d[..3];
      EncodeAppend(d[3..], t);
    } else {
      assert d + t == t;
    }
  }

  /** How many groups of four characters n bytes take, after q full groups. */
  lemma GroupCount(n: nat, q: nat)
    requires 3 * q <= n
    ensures n - 3 * q >= 3 ==> (n + 2) / 3 >= q + 1
    ensures n == 3 * q ==> (n + 2) / 3 == q
    ensures 3 * q < n < 3 * q + 3 ==> (n + 2) / 3 == q + 1
  {
  }

  /** `base64_encode(in, len)` over an array: NULL when len is 0; otherwise a
      fresh buffer of (len + 2) / 3 * 4 + 1 characters holding the encoding
      and a final NUL. */
  method EncodeArray(input: array<Byte>) returns (ans: array?<char>)
    ensures input.Length == 0 ==> ans == null
    ensures input.Length > 0 ==> ans != null && fresh(ans) && ans.Length == (input.Length + 2) / 3 * 4 + 1
                                 && ans[..ans.Length - 1] == Encode(input[..]) && ans[ans.Length - 1] == '\0'
  {
    if input.Length == 0 {
      return null;
    }
    ans := new char[(input.Length + 2) / 3 * 4 + 1];
    var len := input.Length;
    var i, o := 0, 0;
    ghost var q := 0;
    assert Encode(input[..0]) == [];
    hide Encode, Group, Tail1, Tail2, Letter, Top, Second, Third, Bottom;
    while len >= 3
      invariant 0 <= i <= input.Length && len == input.Length - i && i == 3 * q && o == 4 * q
      invariant ans.Length == (input.Length + 2) / 3 * 4 + 1
      invariant ans[..o] == Encode(input[..i])
      decreases len
    {
      GroupCount(input.Length, q);
      PutGroup(input, i, ans, o, q);
      i, o, len, q := i + 3, o + 4, len - 3, q + 1;
    }
    Finish(input, i, ans, o, q);
  }

  /** The code after the loop: the tail, then the NUL. */
  method Finish(input: array<Byte>, i: nat, ans: array<char>, o: nat, ghost q: nat)
    requires i <= input.Length < i + 3 && i == 3 * q && o == 4 * q
    requires ans.Length == (input.Length + 2) / 3 * 4 + 1
    requires ans[..o] == Encode(input[..i])
    modifies ans
    ensures ans[..ans.Length - 1] == Encode(input[..]) && ans[ans.Length - 1] == '\0'
  {
    hide Encode;
    PutTail(input, i, ans, o, q);
    GroupCount(input.Length, q);
    var end := o;
    if input.Length > i {
      end := o + 4;
    }
    Terminate(ans, end);
  }

  /** The final NUL, after the o characters of the encoding. */
  method Terminate(ans: array<char>, o: nat)
    requires o < ans.Length
    modifies ans
    ensures ans[..o] == old(ans[..o]) && ans[o] == '\0'
  {
    ans[o] := '\0';
  }

  /** One pass of the loop: the group at input[i..i + 3) becomes
      ans[o..o + 4). */
  method PutGroup(input: array<Byte>, i: nat, ans: array<char>, o: nat, ghost q: nat)
    requires i + 3 <= input.Length && i == 3 * q && o == 4 * q && o + 4 < ans.Length
    requires ans[..o] == Encode(input[..i])
    modifies ans
    ensures ans[..o + 4] == Encode(input[..i + 3])
  {
    hide Group, Tail1, Tail2, Letter, Top, Second, Third, Bottom, Encode;
    var b0, b1, b2 := input[i], input[i + 1], input[i + 2];
    WriteGroup(ans, o, b0, b1, b2);
    assert input[..i + 3] == input[..i] + [b0, b1, b2];
    EncodeAppend(input[..i], [b0, b1, b2]);
    EncodeGroup(b0, b1, b2);
    assert ans[..o + 4] == ans[..o] + ans[o..o + 4];
  }

  lemma EncodeGroup(b0: Byte, b1: Byte, b2: Byte)
    ensures Encode([b0, b1, b2]) == Group(b0, b1, b2)
  {
    assert [b0, b1, b2][3..] == [];
  }

  /** The four stores of one full group. */
  method WriteGroup(ans: array<char>, o: nat, b0: Byte, b1: Byte, b2: Byte)
    requires o + 4 <= ans.Length
    modifies ans
    ensures ans[..o] == old(ans[..o]) && ans[o..o + 4] == Group(b0, b1, b2)
  {
    var letters := Letters();
    LettersAreAlphabet();
    hide Letters, Upper, Lower, Digits, Letter, Top, Second, Third, Bottom;
    ans[o] := letters[Top(b0)];
    ans[o + 1] := letters[Second(b0, b1)];
    ans[o + 2] := letters[Third(b1, b2)];
    ans[o + 3] := letters[Bottom(b2)];
  }

  /** The `switch` on the 0, 1 or 2 bytes left: the padded tail goes to
      ans[o..o + 4). */
  method PutTail(input: array<Byte>, i: nat, ans: array<char>, o: nat, ghost q: nat)
    requires i <= input.Length < i + 3 && i == 3 * q && o == 4 * q
    requires ans.Length == (input.Length + 2) / 3 * 4 + 1
    requires ans[..o] == Encode(input[..i])
    modifies ans
    ensures input.Length == i ==> o < ans.Length && ans[..o] == Encode(input[..])
    ensures input.Length > i ==> o + 4 < ans.Length && ans[..o + 4] == Encode(input[..])
  {
    hide Group, Tail1, Tail2, Letter, Top, Second, Third, Bottom, Encode;
    var len := input.Length - i;
    assert input[..] == input[..i] + input[i..];
    EncodeAppend(input[..i], input[i..]);
    EncodeShort(input[i..]);
    GroupCount(input.Length, q);
    if len == 0 {
      assert input[i..] == [];
    } else if len == 1 {
      var b0 := input[i];
      WriteTail1(ans, o, b0);
      assert input[i..] == [b0];
      assert ans[..o + 4] == ans[..o] + ans[o..o + 4];
    } else {
      var b0, b1 := input[i], input[i + 1];
      WriteTail2(ans, o, b0, b1);
      assert input[i..] == [b0, b1];
      assert ans[..o + 4] == ans[..o] + ans[o..o + 4];
    }
  }

  lemma EncodeShort(t: seq<Byte>)
    requires |t| < 3
    ensures |t| == 0 ==> Encode(t) == []
    ensures |t| == 1 ==> Encode(t) == Tail1(t[0])
    ensures |t| == 2 ==> Encode(t) == Tail2(t[0], t[1])
  {
  }

  /** The four stores of `case 1`. */
  method WriteTail1(ans: array<char>, o: nat, b0: Byte)
    requires o + 4 <= ans.Length
    modifies ans
    ensures ans[..o] == old(ans[..o]) && ans[o..o + 4] == Tail1(b0)
  {
    var letters := Letters();
    LettersAreAlphabet();
    hide Letters, Upper, Lower, Digits, Letter, Top, Second, Third, Bottom;
    ans[o] := letters[Top(b0)];
    ans[o + 1] := letters[Second(b0, 0)];
    ans[o + 2] := '=';
    ans[o + 3] := '=';
  }

  /** The four stores of `case 2`. */
  method WriteTail2(ans: array<char>, o: nat, b0: Byte, b1: Byte)
    requires o + 4 <= ans.Length
    modifies ans
    ensures ans[..o] == old(ans[..o]) && ans[o..o + 4] == Tail2(b0, b1)
  {
    var letters := Letters();
    LettersAreAlphabet();
    hide Letters, Upper, Lower, Digits, Letter, Top, Second, Third, Bottom;
    ans[o] := letters[Top(b0)];
    ans[o + 1] := letters[Second(b0, b1)];
    ans[o + 2] := letters[Third(b1, 0)];
    ans[o + 3] := '=';
  }
}
