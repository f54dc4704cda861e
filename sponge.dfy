/** The Spritz sponge of Rivest and Schuldt (2014) as pure functions on a state
    value. Every revision of the engine (the three Java generations, the two C
    files, the MSVC decrypter, C++ and Go) performs these same steps; the class
    in module Spritz is proved against them. */
module Sponge {
  import opened Bytes
  import Gcd

  /** The identity permutation 0, 1, ..., 255 that `reset` writes into `s`. */
  function Identity(): (r: seq<Byte>)
    ensures |r| == 256
  {
    seq(256, n requires 0 <= n < 256 => n)
  }

  /** The 256-byte array `s`. */
  type Cells = c: seq<Byte> | |c| == 256 witness Identity()

  /** The whole sponge: `s` and the byte registers i, j, k, z, a, w. Every
      revision keeps the registers as bytes, or as ints masked with 0xff, so
      their arithmetic is arithmetic modulo 256. */
  datatype State = State(s: Cells, i: Byte, j: Byte, k: Byte, z: Byte, a: Byte, w: Byte)

  /** `s` holds every byte value exactly once. */
  predicate IsPermutation(c: Cells)
  {
    multiset(c) == multiset(Identity())
  }

  predicate Odd(w: Byte)
  {
    w % 2 == 1
  }

  /** The invariant every reachable state keeps: `s` is a permutation, at most
      128 nibbles are pending (`a` in [0,128]) and the step `w` is odd, hence
      coprime with 256. */
  predicate Valid(st: State)
  {
    IsPermutation(st.s) && st.a <= 128 && Odd(st.w)
  }

  /** The state after `reset` (and after construction). */
  function Initial(): (r: State)
    ensures forall n :: 0 <= n < 256 ==> r.s[n] == n
    ensures r.i == 0 && r.j == 0 && r.k == 0 && r.z == 0 && r.a == 0 && r.w == 1
  {
    State(Identity(), 0, 0, 0, 0, 0, 1)
  }

  /** The fresh state is valid: cell n holds n, nothing is pending, w is 1. */
  lemma InitialValid()
    ensures Valid(Initial())
    ensures forall n :: 0 <= n < 256 ==> Initial().s[n] == n
    ensures Initial().a == 0 && Initial().w == 1
  {
  }

  /** Exchange two cells of `s`; the only way any revision writes `s`. */
  function Swap(c: Cells, x: Byte, y: Byte): (r: Cells)
    ensures r[x] == c[y] && r[y] == c[x]
  {
    seq(256, n requires 0 <= n < 256 => if n == y then c[x] else if n == x then c[y] else c[n])
  }

  /** A swap moves exactly the two named cells and keeps the bytes of `s`. */
  lemma SwapFacts(c: Cells, x: Byte, y: Byte)
    ensures forall n :: 0 <= n < 256 && n != x && n != y ==> Swap(c, x, y)[n] == c[n]
    ensures multiset(Swap(c, x, y)) == multiset(c)
  {
    assert Swap(c, x, y) == c[x := c[y]][y := c[x]];
    var d := c[x := c[y]];
    assert d[y] == c[y];
    assert multiset(d) == multiset(c) - multiset{c[x]} + multiset{c[y]};
    assert multiset(d[y := c[x]]) == multiset(d) - multiset{c[y]} + multiset{c[x]};
  }

  /** One round of `update`: i += w; j = k + s[j + s[i]]; k = i + k + s[j];
      then s[i] and s[j] trade places. */
  function UpdateStep(st: State): (r: State)
    ensures r.a == st.a && r.w == st.w && r.z == st.z
  {
    var i := Add(st.i, st.w);
    var j := Add(st.k, st.s[Add(st.j, st.s[i])]);
    var k := Add(Add(i, st.k), st.s[j]);
    st.(s := Swap(st.s, i, j), i := i, j := j, k := k)
  }

  /** n applications of a step function. */
  function Iterate(f: State -> State, st: State, n: nat): State
  {
    if n == 0 then st else f(Iterate(f, st, n - 1))
  }

  /** A step that keeps a, w and z keeps them over any number of steps. */
  lemma {:induction false} IterateKeepsRegisters(f: State -> State, st: State, n: nat)
    requires forall x: State :: f(x).a == x.a && f(x).w == x.w && f(x).z == x.z
    ensures Iterate(f, st, n).a == st.a && Iterate(f, st, n).w == st.w && Iterate(f, st, n).z == st.z
    decreases n
  {
    if n > 0 {
      IterateKeepsRegisters(f, st, n - 1);
    }
  }

  /** A step that keeps the bytes of `s` keeps them over any number of steps. */
  lemma {:induction false} IterateKeepsBytes(f: State -> State, st: State, n: nat)
    requires forall x: State :: multiset(f(x).s) == multiset(x.s)
    ensures multiset(Iterate(f, st, n).s) == multiset(st.s)
    decreases n
  {
    if n > 0 {
      IterateKeepsBytes(f, st, n - 1);
    }
  }

  /** `update(n)`: n rounds of UpdateStep. */
  function Updates(st: State, n: nat): (r: State)
    ensures r.a == st.a && r.w == st.w && r.z == st.z
  {
    IterateKeepsRegisters(UpdateStep, st, n);
    Iterate(UpdateStep, st, n)
  }

  /** Update rounds only swap, so `s` keeps its bytes. */
  lemma UpdatesKeepBytes(st: State, n: nat)
    ensures multiset(Updates(st, n).s) == multiset(st.s)
  {
    forall x: State
      ensures multiset(UpdateStep(x).s) == multiset(x.s)
    {
      UpdateStepKeepsBytes(x);
    }
    IterateKeepsBytes(UpdateStep, st, n);
  }

  lemma UpdateStepKeepsBytes(u: State)
    ensures multiset(UpdateStep(u).s) == multiset(u.s)
  {
    var i := Add(u.i, u.w);
    var j := Add(u.k, u.s[Add(u.j, u.s[i])]);
    SwapFacts(u.s, i, j);
  }

  /** The next `w` that whip picks: starting one past w, the first value (wrapping
      at 256) whose gcd with 256 is 1. */
  function NextCoprime(w: Byte): (r: Byte)
    ensures Odd(r)
    ensures !Odd(w) ==> r == Add(w, 1)
    decreases if Odd(w) then 1 else 0
  {
    var v := Add(w, 1);
    Gcd.CoprimeWith256IffOdd(v);
    if Gcd.Gcd(v, 256) == 1 then v else NextCoprime(v)
  }

  /** The w that whip leaves behind is coprime with 256, so the update rounds
      that follow (i += w) visit every cell of `s`. */
  lemma NextCoprimeIsCoprime(w: Byte)
    ensures Gcd.Gcd(NextCoprime(w), 256) == 1
  {
    Gcd.CoprimeWith256IffOdd(NextCoprime(w));
  }

  /** From an odd w the coprime search lands on w + 2 (mod 256): the value the C
      engine and the MSVC decrypter write directly as `w += 2`. */
  lemma {:induction false} NextCoprimeOfOdd(w: Byte)
    requires Odd(w)
    ensures NextCoprime(w) == Add(w, 2)
  {
    var v := Add(w, 1);
    Gcd.CoprimeWith256IffOdd(v);
    assert !Odd(v);
    assert NextCoprime(w) == NextCoprime(v);
  }

  /** `whip(r)`: r update rounds, then w advances to the next value coprime with
      256 (Java, c_version, C++ and Go revisions). */
  function Whip(st: State, r: nat): (t: State)
    ensures Odd(t.w) && t.a == st.a
  {
    var u := Updates(st, r);
    u.(w := NextCoprime(u.w))
  }

  /** `whip` of src/spritz.c and the MSVC decrypter: w += 2 after the rounds. */
  function WhipAddTwo(st: State, r: nat): (t: State)
    ensures t.a == st.a
    ensures Odd(t.w) <==> Odd(st.w)
  {
    var u := Updates(st, r);
    u.(w := Add(u.w, 2))
  }

  /** The two whips agree whenever w is odd, which Valid guarantees. */
  lemma WhipVariantsAgree(st: State, r: nat)
    requires Odd(st.w)
    ensures Whip(st, r) == WhipAddTwo(st, r)
  {
    NextCoprimeOfOdd(Updates(st, r).w);
  }

  /** Step v of crush: order the pair s[v], s[255 - v]. */
  function CrushStep(c: Cells, v: nat): (r: Cells)
    requires v < 128
    ensures r[v] <= r[255 - v]
    ensures (r[v] == c[v] && r[255 - v] == c[255 - v]) || (r[v] == c[255 - v] && r[255 - v] == c[v])
    ensures forall n :: 0 <= n < 256 && n != v && n != 255 - v ==> r[n] == c[n]
  {
    SwapFacts(c, v, 255 - v);
    if c[v] > c[255 - v] then Swap(c, v, 255 - v) else c
  }

  /** Step v orders its pair, moves nothing else and keeps the bytes of `s`. */
  lemma CrushStepFacts(c: Cells, v: nat)
    requires v < 128
    ensures CrushStep(c, v)[v] <= CrushStep(c, v)[255 - v]
    ensures forall n :: 0 <= n < 256 && n != v && n != 255 - v ==> CrushStep(c, v)[n] == c[n]
    ensures multiset(CrushStep(c, v)) == multiset(c)
  {
    SwapFacts(c, v, 255 - v);
  }

  /** The first n steps of crush. */
  function Crushed(c: Cells, n: nat): Cells
    requires n <= 128
  {
    if n == 0 then c else CrushStep(Crushed(c, n - 1), n - 1)
  }

  /** After n steps the first n pairs are ordered, the middle is untouched, and
      `s` keeps its bytes. */
  lemma {:induction false} CrushedFacts(c: Cells, n: nat)
    requires n <= 128
    ensures forall v :: 0 <= v < n ==> Crushed(c, n)[v] <= Crushed(c, n)[255 - v]
    ensures forall v :: n <= v < 256 - n ==> Crushed(c, n)[v] == c[v]
    ensures multiset(Crushed(c, n)) == multiset(c)
    decreases n
  {
    if n > 0 {
      CrushedFacts(c, n - 1);
      CrushStepFacts(Crushed(c, n - 1), n - 1);
    }
  }

  /** `crush`. */
  function Crush(st: State): (r: State)
    ensures forall v :: 0 <= v < 128 ==> r.s[v] <= r.s[255 - v]
    ensures r == st.(s := r.s)
  {
    CrushedFacts(st.s, 128);
    st.(s := Crushed(st.s, 128))
  }

  /** After crush every cell in the lower half is at most its mirror image, the
      registers are unchanged and `s` keeps its bytes. */
  lemma CrushFacts(st: State)
    ensures forall v :: 0 <= v < 128 ==> Crush(st).s[v] <= Crush(st).s[255 - v]
    ensures Crush(st) == st.(s := Crush(st).s)
    ensures multiset(Crush(st).s) == multiset(st.s)
  {
    CrushedFacts(st.s, 128);
  }

  /** `shuffle`: whip(512), crush, whip(512), crush, whip(512), a = 0. */
  function Shuffle(st: State): (r: State)
    ensures r.a == 0 && Odd(r.w)
  {
    var t := Whip(Crush(Whip(Crush(Whip(st, 512)), 512)), 512);
    t.(a := 0)
  }

  /** The shuffle of src/spritz.c and the MSVC decrypter, built on `w += 2`. */
  function ShuffleAddTwo(st: State): (r: State)
    ensures r.a == 0
    ensures Odd(r.w) <==> Odd(st.w)
  {
    var t := WhipAddTwo(Crush(WhipAddTwo(Crush(WhipAddTwo(st, 512)), 512)), 512);
    t.(a := 0)
  }

  /** On every state with odd w (in particular every valid state) the C engine's
      shuffle is the shuffle of the other revisions. */
  lemma ShuffleVariantsAgree(st: State)
    requires Odd(st.w)
    ensures Shuffle(st) == ShuffleAddTwo(st)
  {
    var t1 := Whip(st, 512);
    WhipVariantsAgree(st, 512);
    var t2 := Whip(Crush(t1), 512);
    WhipVariantsAgree(Crush(t1), 512);
    WhipVariantsAgree(Crush(t2), 512);
  }

  /** Shuffle keeps `s` a permutation, leaves w odd and empties the absorb buffer. */
  lemma ShuffleValid(st: State)
    requires IsPermutation(st.s)
    ensures Valid(Shuffle(st)) && Shuffle(st).a == 0
  {
    var t1 := Whip(st, 512);
    UpdatesKeepBytes(st, 512);
    var c1 := Crush(t1);
    CrushFacts(t1);
    var t2 := Whip(c1, 512);
    UpdatesKeepBytes(c1, 512);
    var c2 := Crush(t2);
    CrushFacts(t2);
    UpdatesKeepBytes(c2, 512);
  }

  /** Shuffle exactly when `due` holds: the guard in front of absorbing (a full
      lower half) and in front of output (pending input). */
  function ShuffleIf(due: bool, st: State): (r: State)
    ensures due ==> r.a == 0 && Odd(r.w)
    ensures !due ==> r == st
  {
    if due then Shuffle(st) else st
  }

  /** `absorbNibble(x)`: shuffle if the lower half is full, then swap s[a] with
      s[128 + x] and advance a. */
  function AbsorbNibble(st: State, x: Byte): (r: State)
    requires x < 16
    ensures st.a < 128 ==> r.a == st.a + 1 && r.w == st.w && r.s == Swap(st.s, st.a, 128 + x)
    ensures st.a == 128 ==> r.a == 1
  {
    var t := ShuffleIf(st.a == 128, st);
    t.(s := Swap(t.s, t.a, 128 + x), a := Add(t.a, 1))
  }

  /** `absorbStop`: like absorbing a nibble, but nothing is swapped. */
  function AbsorbStop(st: State): (r: State)
    ensures st.a < 128 ==> r == st.(a := st.a + 1)
    ensures st.a == 128 ==> r.a == 1
  {
    var t := ShuffleIf(st.a == 128, st);
    t.(a := Add(t.a, 1))
  }

  /** `absorb(b)`: the low nibble, then the high nibble. */
  function AbsorbByte(st: State, b: Byte): (r: State)
    ensures st.a <= 126 ==> r.a == st.a + 2 && r.w == st.w
    ensures st.a == 127 ==> r.a == 1
    ensures st.a == 128 ==> r.a == 2
  {
    AbsorbNibble(AbsorbNibble(st, b % 16), b / 16)
  }

  /** `absorb(bs)`: every byte in order. */
  function AbsorbBytes(st: State, bs: seq<Byte>): (r: State)
    ensures bs == [] ==> r == st
  {
    if bs == [] then st else AbsorbByte(AbsorbBytes(st, bs[..|bs| - 1]), bs[|bs| - 1])
  }

  /** While the lower half has room, every absorbed byte adds two pending
      nibbles and no shuffle happens, so w is untouched. */
  lemma {:induction false} AbsorbBytesPending(st: State, bs: seq<Byte>)
    requires st.a + 2 * |bs| <= 128
    ensures AbsorbBytes(st, bs).a == st.a + 2 * |bs|
    ensures AbsorbBytes(st, bs).w == st.w
    decreases |bs|
  {
    if bs != [] {
      AbsorbBytesPending(st, bs[..|bs| - 1]);
    }
  }

  lemma AbsorbBytesLast(st: State, bs: seq<Byte>)
    requires bs != []
    ensures AbsorbBytes(st, bs) == AbsorbByte(AbsorbBytes(st, bs[..|bs| - 1]), bs[|bs| - 1])
  {
  }

  /** Absorbing a concatenation is absorbing the parts one after the other, so the
      absorbed state does not depend on how the input was split. */
  lemma {:induction false} AbsorbBytesAppend(st: State, xs: seq<Byte>, ys: seq<Byte>)
    ensures AbsorbBytes(st, xs + ys) == AbsorbBytes(AbsorbBytes(st, xs), ys)
    decreases |ys|
  {
    if ys == [] {
      assert xs + ys == xs;
    } else {
      var init, last := ys[..|ys| - 1], ys[|ys| - 1];
      var zs := xs + ys;
      assert zs[..|zs| - 1] == xs + init;
      assert zs[|zs| - 1] == last;
      AbsorbBytesAppend(st, xs, init);
      AbsorbBytesLast(st, zs);
      AbsorbBytesLast(AbsorbBytes(st, xs), ys);
    }
  }

  /** Absorbing a nibble keeps the invariant: a shuffle at a == 128 brings a back
      to 0 before it is incremented, so a stays within [1,128]. */
  lemma AbsorbNibbleValid(st: State, x: Byte)
    requires Valid(st) && x < 16
    ensures Valid(AbsorbNibble(st, x)) && AbsorbNibble(st, x).a >= 1
  {
    var t := ShuffleIf(st.a == 128, st);
    if st.a == 128 {
      ShuffleValid(st);
    }
    SwapFacts(t.s, t.a, 128 + x);
  }

  lemma AbsorbStopValid(st: State)
    requires Valid(st)
    ensures Valid(AbsorbStop(st)) && AbsorbStop(st).a >= 1
  {
    if st.a == 128 {
      ShuffleValid(st);
    }
  }

  lemma AbsorbByteValid(st: State, b: Byte)
    requires Valid(st)
    ensures Valid(AbsorbByte(st, b))
  {
    AbsorbNibbleValid(st, b % 16);
    AbsorbNibbleValid(AbsorbNibble(st, b % 16), b / 16);
  }

  lemma {:induction false} AbsorbBytesValid(st: State, bs: seq<Byte>)
    requires Valid(st)
    ensures Valid(AbsorbBytes(st, bs))
    decreases |bs|
  {
    if bs != [] {
      AbsorbBytesValid(st, bs[..|bs| - 1]);
      AbsorbByteValid(AbsorbBytes(st, bs[..|bs| - 1]), bs[|bs| - 1]);
    }
  }

  /** The output byte of `dripOne`: one update round, then
      z = s[j + s[i + s[z + k]]]. */
  function DripOne(st: State): (r: (State, Byte))
    ensures r.0.a == st.a && r.0.w == st.w && r.0.z == r.1
  {
    var u := Updates(st, 1);
    var z := u.s[Add(u.j, u.s[Add(u.i, u.s[Add(u.z, u.k)])])];
    (u.(z := z), z)
  }

  /** The shuffle every output operation starts with when input is pending. */
  function Prime(st: State): (r: State)
    ensures r.a == 0
  {
    ShuffleIf(st.a > 0, st)
  }

  /** `drip()`: shuffle iff a > 0, then one output of dripOne. */
  function Drip(st: State): (r: (State, Byte))
    ensures r.0.a == 0
  {
    DripOne(Prime(st))
  }

  /** n successive outputs of an output step f, and the state after them. */
  function Run(f: State -> (State, Byte), st: State, n: nat): (r: (State, seq<Byte>))
    ensures |r.1| == n
  {
    if n == 0 then (st, [])
    else
      var p := Run(f, st, n - 1);
      var q := f(p.0);
      (q.0, p.1 + [q.1])
  }

  lemma RunStep(f: State -> (State, Byte), st: State, n: nat)
    ensures Run(f, st, n + 1).0 == f(Run(f, st, n).0).0
    ensures Run(f, st, n + 1).1 == Run(f, st, n).1 + [f(Run(f, st, n).0).1]
  {
  }

  /** Output can be taken in any pieces: m outputs then n outputs are the first
      m + n outputs. */
  lemma {:induction false} RunAppend(f: State -> (State, Byte), st: State, m: nat, n: nat)
    ensures Run(f, Run(f, st, m).0, n).0 == Run(f, st, m + n).0
    ensures Run(f, st, m).1 + Run(f, Run(f, st, m).0, n).1 == Run(f, st, m + n).1
    decreases n
  {
    var p := Run(f, st, m);
    if n == 0 {
      assert p.1 + [] == p.1;
    } else {
      RunAppend(f, st, m, n - 1);
      var q := Run(f, p.0, n - 1);
      var r := Run(f, st, m + (n - 1));
      var d := f(q.0);
      assert Run(f, p.0, n) == (d.0, q.1 + [d.1]);
      assert Run(f, st, m + n) == (d.0, r.1 + [d.1]);
      assert p.1 + (q.1 + [d.1]) == (p.1 + q.1) + [d.1];
    }
  }

  /** Output t of a run is step f applied to the state after the first t outputs. */
  lemma {:induction false} RunOutput(f: State -> (State, Byte), st: State, n: nat, t: nat)
    requires t < n
    ensures Run(f, st, n).1[t] == f(Run(f, st, t).0).1
    decreases n
  {
    if t < n - 1 {
      RunOutput(f, st, n - 1, t);
    }
  }

  /** n consecutive `dripOne` outputs and the state after them. */
  function Stream(st: State, n: nat): (r: (State, seq<Byte>))
    ensures |r.1| == n
  {
    Run(DripOne, st, n)
  }

  lemma StreamStep(st: State, n: nat)
    ensures Stream(st, n + 1).0 == DripOne(Stream(st, n).0).0
    ensures Stream(st, n + 1).1 == Stream(st, n).1 + [DripOne(Stream(st, n).0).1]
  {
    RunStep(DripOne, st, n);
  }

  /** The key stream is one sequence however it is cut into pieces. */
  lemma StreamAppend(st: State, m: nat, n: nat)
    ensures Stream(Stream(st, m).0, n).0 == Stream(st, m + n).0
    ensures Stream(st, m).1 + Stream(Stream(st, m).0, n).1 == Stream(st, m + n).1
  {
    RunAppend(DripOne, st, m, n);
  }

  /** Producing output changes neither a nor w and keeps the bytes of `s`. */
  lemma StreamKeeps(st: State, n: nat)
    ensures Stream(st, n).0.a == st.a && Stream(st, n).0.w == st.w
    ensures multiset(Stream(st, n).0.s) == multiset(st.s)
  {
    forall x: State
      ensures DripOne(x).0.a == x.a && DripOne(x).0.w == x.w
      ensures multiset(DripOne(x).0.s) == multiset(x.s)
    {
      UpdatesKeepBytes(x, 1);
    }
    RunKeeps(DripOne, st, n);
  }

  /** An output step that keeps a, w and the bytes of `s` keeps them over a run. */
  lemma {:induction false} RunKeeps(f: State -> (State, Byte), st: State, n: nat)
    requires forall x: State :: f(x).0.a == x.a && f(x).0.w == x.w && multiset(f(x).0.s) == multiset(x.s)
    ensures Run(f, st, n).0.a == st.a && Run(f, st, n).0.w == st.w
    ensures multiset(Run(f, st, n).0.s) == multiset(st.s)
    decreases n
  {
    if n > 0 {
      RunKeeps(f, st, n - 1);
    }
  }

  /** `squeeze(n)`: shuffle iff a > 0, then n outputs of dripOne. */
  function Squeeze(st: State, n: nat): (r: (State, seq<Byte>))
    ensures |r.1| == n
  {
    Stream(Prime(st), n)
  }

  /** Every key-stream byte comes from a state with a == 0: byte t of a squeeze
      is the dripOne output of a state with nothing pending. */
  lemma SqueezeFromEmptyBuffer(st: State, n: nat, t: nat)
    requires t < n
    ensures Stream(Prime(st), t).0.a == 0
    ensures Squeeze(st, n).1[t] == DripOne(Stream(Prime(st), t).0).1
  {
    StreamKeeps(Prime(st), t);
    RunOutput(DripOne, Prime(st), n, t);
  }

  /** n calls of `drip()`, the form `skip(n)` and the hash loops use. */
  function Drips(st: State, n: nat): (r: (State, seq<Byte>))
    ensures |r.1| == n
    ensures n > 0 ==> r.0.a == 0
  {
    Run(Drip, st, n)
  }

  lemma DripsStep(st: State, n: nat)
    ensures Drips(st, n + 1).0 == Drip(Drips(st, n).0).0
  {
    RunStep(Drip, st, n);
  }

  lemma DripsAppend(st: State, m: nat, n: nat)
    ensures Drips(Drips(st, m).0, n).0 == Drips(st, m + n).0
    ensures Drips(st, m).1 + Drips(Drips(st, m).0, n).1 == Drips(st, m + n).1
  {
    RunAppend(Drip, st, m, n);
  }

  lemma FirstOutput(st: State)
    ensures Drips(st, 1).0 == Drip(st).0 && Drips(st, 1).1 == [Drip(st).1]
    ensures Squeeze(st, 1).0 == Drip(st).0 && Squeeze(st, 1).1 == [Drip(st).1]
  {
    RunStep(Drip, st, 0);
    RunStep(DripOne, Prime(st), 0);
  }

  /** Once nothing is pending, drip() is dripOne(): n drips from such a state
      are n outputs of the stream. */
  lemma {:induction false} DripsFromEmpty(st: State, n: nat)
    requires st.a == 0
    ensures Drips(st, n).0 == Stream(st, n).0 && Drips(st, n).1 == Stream(st, n).1
    ensures Stream(st, n).0.a == 0
    decreases n
  {
    hide Shuffle, Updates;
    if n > 0 {
      DripsFromEmpty(st, n - 1);
      RunStep(Drip, st, n - 1);
      RunStep(DripOne, st, n - 1);
    }
  }

  /** One squeeze of n > 0 bytes equals n separate drips, since only the first of
      them can find input pending; for n == 0 only the squeeze shuffles. */
  lemma DripsIsSqueeze(st: State, n: nat)
    requires n > 0
    ensures Drips(st, n).0 == Squeeze(st, n).0 && Drips(st, n).1 == Squeeze(st, n).1
  {
    hide Shuffle, Updates;
    var m := n - 1;
    FirstOutput(st);
    var s1 := Drip(st).0;
    DripsFromEmpty(s1, m);
    RunAppend(Drip, st, 1, m);
    RunAppend(DripOne, Prime(st), 1, m);
    assert 1 + m == n;
  }

  /** Output keeps the invariant. */
  lemma SqueezeValid(st: State, n: nat)
    requires Valid(st)
    ensures Valid(Squeeze(st, n).0)
  {
    if st.a > 0 {
      ShuffleValid(st);
    }
    StreamKeeps(Prime(st), n);
  }

  lemma {:induction false} DripsValid(st: State, n: nat)
    requires Valid(st)
    ensures Valid(Drips(st, n).0)
    decreases n
  {
    if n > 0 {
      DripsValid(st, n - 1);
      var p := Drips(st, n - 1).0;
      SqueezeValid(p, 1);
      FirstOutput(p);
      RunStep(Drip, st, n - 1);
    }
  }

  /** Once a byte has been produced nothing is pending: the next output starts
      without a shuffle. */
  lemma SqueezeLeavesNothingPending(st: State, n: nat)
    ensures Squeeze(st, n).0.a == 0
  {
    StreamKeeps(Prime(st), n);
  }

  lemma DripsLeaveNothingPending(st: State, n: nat)
    requires n > 0
    ensures Drips(st, n).0.a == 0
  {
    DripsIsSqueeze(st, n);
    SqueezeLeavesNothingPending(st, n);
  }

  /** Squeezing m bytes and then n more is squeezing m + n bytes at once. */
  lemma SqueezeAppend(st: State, m: nat, n: nat)
    ensures Squeeze(Squeeze(st, m).0, n).0 == Squeeze(st, m + n).0
    ensures Squeeze(st, m).1 + Squeeze(Squeeze(st, m).0, n).1 == Squeeze(st, m + n).1
  {
    SqueezeLeavesNothingPending(st, m);
    StreamAppend(Prime(st), m, n);
  }

  /** drip() calls after a squeeze continue the same stream. */
  lemma DripsAfterSqueeze(st: State, m: nat, n: nat)
    ensures Drips(Squeeze(st, m).0, n).0 == Squeeze(st, m + n).0
    ensures Squeeze(st, m).1 + Drips(Squeeze(st, m).0, n).1 == Squeeze(st, m + n).1
  {
    SqueezeLeavesNothingPending(st, m);
    DripsFromEmpty(Squeeze(st, m).0, n);
    StreamAppend(Prime(st), m, n);
  }

  /** A squeeze after at least one drip() continues the same stream. */
  lemma SqueezeAfterDrips(st: State, m: nat, n: nat)
    requires m > 0
    ensures Squeeze(Drips(st, m).0, n).0 == Drips(st, m + n).0
    ensures Drips(st, m).1 + Squeeze(Drips(st, m).0, n).1 == Drips(st, m + n).1
  {
    DripsLeaveNothingPending(st, m);
    DripsFromEmpty(Drips(st, m).0, n);
    DripsAppend(st, m, n);
  }

  /** The first m bytes of a longer squeeze are the squeeze of m bytes. */
  lemma SqueezePrefix(st: State, m: nat, n: nat)
    requires m <= n
    ensures Squeeze(st, n).1[..m] == Squeeze(st, m).1
  {
    hide Squeeze, Stream, Prime;
    var head := Squeeze(st, m).1;
    var tail := Squeeze(Squeeze(st, m).0, n - m).1;
    SqueezeAppend(st, m, n - m);
    assert m + (n - m) == n;
    assert |head| == m;
    assert (head + tail)[..m] == head;
  }

  /** A permutation of the 256 byte values holds each of them. */
  lemma PermutationHoldsEveryByte(c: Cells, v: Byte)
    requires IsPermutation(c)
    ensures v in c
  {
    assert Identity()[v] == v;
    assert v in multiset(Identity());
  }
}
