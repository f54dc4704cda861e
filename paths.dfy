/** File names: `basename` and `determine_target` of the C revision
    (src/crypt.c), the output-name rule of the Windows decrypter
    (MSVC_decrypter/SpritzDecrypt.cpp), and the last-component rule the Java
    streams apply to the name they store. Strings are character sequences
    without their terminating NUL. */
module Paths {
  import opened Bytes

  /** The part of `path` after its last `sep`, or all of it when there is
      none (`strrchr(src, '/')`, `File.getName`). */
  function Basename<T(==)>(path: seq<T>, sep: T): (r: seq<T>)
    ensures |r| <= |path| && r == path[|path| - |r|..]
    ensures sep !in r
    ensures |r| < |path| ==> path[|path| - |r| - 1] == sep
  {
    if |path| == 0 then []
    else if path[|path| - 1] == sep then []
    else Basename(path[..|path| - 1], sep) + [path[|path| - 1]]
  }

  /** One step of `Basename`: the last character decides. */
  lemma BasenameStep<T>(path: seq<T>, sep: T)
    requires |path| > 0
    ensures Basename(path, sep)
      == if path[|path| - 1] == sep then [] else Basename(path[..|path| - 1], sep) + [path[|path| - 1]]
  {
  }

  /** Appending a character other than the separator extends the last
      component by it. */
  lemma BasenameSnoc<T>(q: seq<T>, last: T, sep: T)
    requires last != sep
    ensures Basename(q + [last], sep) == Basename(q, sep) + [last]
  {
    assert (q + [last])[..|q|] == q;
    BasenameStep(q + [last], sep);
  }

  /** Appending a piece without separators extends the last component. */
  lemma {:induction false} BasenameAppend<T>(p: seq<T>, x: seq<T>, sep: T)
    requires sep !in x
    ensures Basename(p + x, sep) == Basename(p, sep) + x
    decreases |x|
  {
    hide Basename;
    if x == [] {
      assert p + x == p;
    } else {
      var y, last := x[..|x| - 1], x[|x| - 1];
      assert x == y + [last] && last in x;
      assert p + x == (p + y) + [last];
      BasenameSnoc(p + y, last, sep);
      BasenameAppend(p, y, sep);
      var b := Basename(p, sep);
      assert b + y + [last] == b + (y + [last]);
    }
  }

  /** A path without separators is its own base name. */
  lemma BasenameOfName<T>(x: seq<T>, sep: T)
    requires sep !in x
    ensures Basename(x, sep) == x
  {
    BasenameAppend([], x, sep);
    assert [] + x == x;
  }

  const Extension: string := ".spritz"
  const Unenc: string := ".unenc"

  /** The name `determine_target` builds on: the output directory followed by
      the source's base name, or the source path itself without a directory. */
  function TargetBase(odir: Option<string>, src: string): (r: string)
    ensures odir.None? ==> r == src
    ensures odir.Some? ==> |odir.value| <= |r| <= |odir.value| + |src| && r[..|odir.value|] == odir.value
    ensures odir.Some? ==> '/' !in r[|odir.value|..]
  {
    match odir
    case None => src
    case Some(d) => d + Basename(src, '/')
  }

  /** The suffix step of `determine_target` as written, on the name built so
      far: encrypting appends ".spritz"; decrypting removes a trailing
      ".spritz" when the name is longer than 7 characters, and otherwise
      appends ".unenc". */
  function Suffixed(encrypting: bool, name: string): (r: string)
    ensures encrypting ==> |r| == |name| + 7 && r[..|name|] == name && r[|name|..] == Extension
    ensures !encrypting ==> (|r| < |name| <==> |name| > 7 && name[|name| - 7..] == Extension)
    ensures |r| < |name| ==> r + Extension == name
    ensures !encrypting && |r| >= |name| ==> r == name + Unenc
  {
    if encrypting then name + Extension
    else if |name| > 7 && name[|name| - 7..] == Extension then name[..|name| - 7]
    else name + Unenc
  }

  /** `determine_target(encrypting, odir, src)` as written. */
  function Target(encrypting: bool, odir: Option<string>, src: string): (r: string)
    ensures r != TargetBase(odir, src)
    ensures odir.None? ==> r != src
  {
    Suffixed(encrypting, TargetBase(odir, src))
  }

  /** `strcpy(buf + at, str)`: the characters of str and a NUL, nothing else
      touched. */
  method StrCpy(buf: array<char>, at: nat, str: string)
    requires at + |str| < buf.Length
    modifies buf
    ensures buf[..at] == old(buf[..at])
    ensures buf[at..at + |str|] == str && buf[at + |str|] == '\0'
    ensures buf[at + |str| + 1..] == old(buf[at + |str| + 1..])
  {
    var t := 0;
    while t < |str|
      invariant 0 <= t <= |str|
      invariant buf[..at] == old(buf[..at])
      invariant buf[at..at + t] == str[..t]
      invariant buf[at + t..] == old(buf[at + t..])
    {
      buf[at + t] := str[t];
      t := t + 1;
    }
    buf[at + t] := '\0';
  }

  /** The first two steps of `determine_target`: a fresh buffer of odirlen +
      srclen + 8 characters holding the output directory and the (base) name,
      followed by a NUL. */
  method CopyBase(odir: Option<string>, src: string) returns (tgt: array<char>, loc: nat)
    ensures fresh(tgt)
    ensures var name := if odir.Some? then Basename(src, '/') else src;
            tgt.Length == (if odir.Some? then |odir.value| else 0) + |name| + 8
    ensures loc + 8 == tgt.Length && tgt[..loc] == TargetBase(odir, src) && tgt[loc] == '\0'
  {
    var s := src;
    var odirlen := 0;
    if odir.Some? {
      odirlen := |odir.value|;
      s := Basename(src, '/');
    }
    var srclen := |s|;
    tgt := new char[odirlen + srclen + 7 + 1](_ => '\0');
    loc := 0;
    if odir.Some? {
      StrCpy(tgt, loc, odir.value);
      loc := loc + odirlen;
    }
    ghost var front := tgt[..loc];
    StrCpy(tgt, loc, s);
    assert tgt[..loc + srclen] == front + s by {
      assert tgt[..loc + srclen] == tgt[..loc] + tgt[loc..loc + srclen];
    }
    loc := loc + srclen;
  }

  /** The suffix step on a buffer holding `name` at [0, loc) with room for
      seven more characters and a NUL. */
  method ApplySuffix(encrypting: bool, tgt: array<char>, loc: nat) returns (len: nat)
    requires loc + 8 == tgt.Length
    modifies tgt
    ensures len < tgt.Length && tgt[len] == '\0'
    ensures tgt[..len] == Suffixed(encrypting, old(tgt[..loc]))
  {
    ghost var name := tgt[..loc];
    if encrypting {
      StrCpy(tgt, loc, Extension);
      assert tgt[..loc + 7] == tgt[..loc] + tgt[loc..loc + 7];
      len := loc + 7;
    } else if loc > 7 && tgt[loc - 7..loc] == Extension {
      // strcmp(loc - 7, extension): the seven characters before the NUL at loc
      tgt[loc - 7] := '\0';
      len := loc - 7;
      assert tgt[..len] == name[..len];
    } else {
      StrCpy(tgt, loc, Unenc);
      assert tgt[..loc + 6] == tgt[..loc] + tgt[loc..loc + 6];
      len := loc + 6;
    }
  }

  /** `determine_target`: a buffer of odirlen + srclen + 8 characters (srclen
      is the base name's length when there is an output directory) holding
      the target name and its NUL. The allocation always suffices. */
  method DetermineTarget(encrypting: bool, odir: Option<string>, src: string) returns (tgt: array<char>, len: nat)
    ensures var name := if odir.Some? then Basename(src, '/') else src;
            tgt.Length == (if odir.Some? then |odir.value| else 0) + |name| + 8
    ensures len < tgt.Length && tgt[len] == '\0'
    ensures tgt[..len] == Target(encrypting, odir, src)
  {
    var loc;
    tgt, loc := CopyBase(odir, src);
    len := ApplySuffix(encrypting, tgt, loc);
  }

  /** The target, with its NUL, always fits the odirlen + srclen + 8
      characters allocated for it. */
  lemma TargetFits(encrypting: bool, odir: Option<string>, src: string)
    ensures var name := if odir.Some? then Basename(src, '/') else src;
            |Target(encrypting, odir, src)| + 1 <= (if odir.Some? then |odir.value| else 0) + |name| + 8
  {
  }

  /** Decrypting restores the name a file was encrypted from. */
  lemma DecryptTargetInvertsEncrypt(src: string)
    requires src != []
    ensures Target(false, None, Target(true, None, src)) == src
  {
    var e := src + Extension;
    assert e[|e| - 7..] == Extension && e[..|e| - 7] == src;
  }

  /** As written, a name that is exactly ".spritz" has it removed whenever
      something precedes it, and the target becomes the directory: both an
      output directory "out/" and a path "d/.spritz" give a target with an
      empty last component. */
  lemma TargetCanBeDirectory()
    ensures Target(false, Some("out/"), ".spritz") == "out/"
    ensures Target(false, None, "d/.spritz") == "d/"
    ensures Basename(Target(false, None, "d/.spritz"), '/') == []
  {
    hide Basename;
    BasenameOfName(Extension, '/');
    var dir := "out/" + Extension;
    assert dir[|dir| - 7..] == Extension && dir[..|dir| - 7] == "out/";
    var path: string := "d/.spritz";
    assert path[|path| - 7..] == Extension && path[..|path| - 7] == "d/";
    BasenameStep("d/", '/');
  }

  /** `determine_target` with the guard its comment intends: the extension is
      removed only when the file's own name is longer than it. */
  function TargetFixed(encrypting: bool, odir: Option<string>, src: string): (r: string)
    ensures r != TargetBase(odir, src)
    ensures odir.None? ==> r != src
    ensures encrypting ==> r == Target(encrypting, odir, src)
  {
    var name := TargetBase(odir, src);
    if encrypting then name + Extension
    else if |Basename(src, '/')| > 7 && name[|name| - 7..] == Extension then name[..|name| - 7]
    else name + Unenc
  }

  /** The name built so far ends with the source's base name. */
  lemma TargetBaseEndsWithName(odir: Option<string>, src: string)
    ensures var name := TargetBase(odir, src);
            var bn := Basename(src, '/');
            |bn| <= |name| && name == name[..|name| - |bn|] + bn
  {
    hide Basename;
    var name := TargetBase(odir, src);
    var bn := Basename(src, '/');
    if odir.Some? {
      assert name == odir.value + bn;
      assert name[..|name| - |bn|] == odir.value;
    } else {
      assert name == src && bn == src[|src| - |bn|..];
      assert src == src[..|src| - |bn|] + src[|src| - |bn|..];
    }
  }

  /** Removing at most all but one character of the last component leaves a
      non-empty last component. */
  lemma TrimKeepsName(front: string, bn: string, k: nat)
    requires '/' !in bn && k < |bn|
    ensures var name := front + bn;
            Basename(name[..|name| - k], '/') != []
  {
    hide Basename;
    var name := front + bn;
    var keep := bn[..|bn| - k];
    assert name[..|name| - k] == front + keep;
    BasenameAppend(front, keep, '/');
  }

  /** A name ending in a separator-free suffix has a non-empty last component. */
  lemma SuffixNamesFile(name: string, suffix: string)
    requires suffix == Extension || suffix == Unenc
    ensures Basename(name + suffix, '/') != []
  {
    hide Basename;
    assert '/' !in suffix;
    BasenameAppend(name, suffix, '/');
  }

  lemma TargetFixedIs(encrypting: bool, odir: Option<string>, src: string)
    ensures var name := TargetBase(odir, src);
            var bn := Basename(src, '/');
            |bn| <= |name| &&
            TargetFixed(encrypting, odir, src)
            == if encrypting then name + Extension
               else if |bn| > 7 && name[|name| - 7..] == Extension then name[..|name| - 7]
               else name + Unenc
  {
    TargetBaseEndsWithName(odir, src);
  }

  /** With the intended guard the target always names a file: its last
      component is never empty. */
  lemma TargetFixedNamesFile(encrypting: bool, odir: Option<string>, src: string)
    ensures Basename(TargetFixed(encrypting, odir, src), '/') != []
  {
    hide Basename, TargetBase, TargetFixed;
    var name := TargetBase(odir, src);
    var bn := Basename(src, '/');
    TargetBaseEndsWithName(odir, src);
    TargetFixedIs(encrypting, odir, src);
    if encrypting {
      SuffixNamesFile(name, Extension);
    } else if |bn| > 7 && name[|name| - 7..] == Extension {
      TrimKeepsName(name[..|name| - |bn|], bn, 7);
    } else {
      SuffixNamesFile(name, Unenc);
    }
  }

  /** The corrected rule still restores the name a file was encrypted from
      whenever that name has a last component. */
  lemma DecryptTargetFixedInvertsEncrypt(src: string)
    requires Basename(src, '/') != []
    ensures TargetFixed(false, None, TargetFixed(true, None, src)) == src
  {
    hide Basename;
    var e := src + Extension;
    BasenameAppend(src, Extension, '/');
    assert e[|e| - 7..] == Extension && e[..|e| - 7] == src;
  }

  /** The Windows decrypter's output name: the source name without its last
      four characters, or with ".out" appended when it is no longer than
      four. It never names the source itself. */
  function OutputName(src: string): (r: string)
    ensures r != src
    ensures |src| > 4 ==> src == r + src[|src| - 4..]
  {
    if |src| > 4 then src[..|src| - 4] else src + ".out"
  }
}
