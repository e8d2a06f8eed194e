/**
 Hiding the guest's platform variables from the host when a guest program is executed, and finding them again
 when the guest starts. Strings are C strings, without their terminating '\0'.
 */
module ExecEnvironment {

  const GUEST_PREFIX: string := "BERBERIS_GUEST_"
  const LD_LIBRARY_PATH: string := "LD_LIBRARY_PATH="

  datatype Maybe<T> = None | Some(value: T)

  predicate StartsWith(s: string, prefix: string) {
    prefix <= s
  }

  predicate IsPlatformVar(s: string) {
    StartsWith(s, "LD_CONFIG_FILE=") || StartsWith(s, "LD_LIBRARY_PATH=") || StartsWith(s, "LD_DEBUG=") ||
    StartsWith(s, "LD_PRELOAD=")
  }

  predicate IsCString(s: string) {
    '\0' !in s
  }

  // ---------------------------------------------------------------------------------------------- what is meant

  predicate SetsLibraryPath(v: string) {
    StartsWith(v, LD_LIBRARY_PATH)
  }

  /** The variable with the path prefix put in front of the library path, if it is the library path. */
  function WithPath(v: string, path: Maybe<string>): string {
    if path.Some? && SetsLibraryPath(v) then LD_LIBRARY_PATH + path.value + ":" + v[|LD_LIBRARY_PATH|..] else v
  }

  predicate AddsPath(envp: seq<string>, path: Maybe<string>) {
    path.Some? && forall v | v in envp :: !SetsLibraryPath(v)
  }

  /** The environment the guest program is meant to see: the path prefix inserted, or appended where there was none. */
  function Intended(envp: seq<string>, path: Maybe<string>): seq<string> {
    EachWithPath(envp, path) + if AddsPath(envp, path) then [LD_LIBRARY_PATH + path.value] else []
  }

  function EachWithPath(envp: seq<string>, path: Maybe<string>): seq<string> {
    seq(|envp|, i requires 0 <= i < |envp| => WithPath(envp[i], path))
  }

  function MangleVar(v: string, path: Maybe<string>): string {
    (if IsPlatformVar(v) then GUEST_PREFIX else "") + WithPath(v, path)
  }

  function MangleEach(envp: seq<string>, path: Maybe<string>): (r: seq<string>)
    ensures |r| == |envp|
  {
    if envp == [] then [] else MangleEach(envp[..|envp| - 1], path) + [MangleVar(envp[|envp| - 1], path)]
  }

  function Mangled(envp: seq<string>, path: Maybe<string>): seq<string> {
    MangleEach(envp, path) + if AddsPath(envp, path) then [GUEST_PREFIX + LD_LIBRARY_PATH + path.value] else []
  }

  /** A variable that already looks mangled. */
  predicate Premangled(v: string) {
    StartsWith(v, GUEST_PREFIX) && IsPlatformVar(v[|GUEST_PREFIX|..])
  }

  function DemangleVar(v: string): seq<string> {
    if IsPlatformVar(v) then [] else if Premangled(v) then [v[|GUEST_PREFIX|..]] else [v]
  }

  function Demangled(envp: seq<string>): seq<string> {
    if envp == [] then [] else Demangled(envp[..|envp| - 1]) + DemangleVar(envp[|envp| - 1])
  }

  // ---------------------------------------------------------------------------------------------- round trip

  /** What comes back for one variable. */
  function Restored(v: string, path: Maybe<string>): string {
    if Premangled(v) then v[|GUEST_PREFIX|..] else WithPath(v, path)
  }

  function RestoredEach(envp: seq<string>, path: Maybe<string>): (r: seq<string>)
    ensures |r| == |envp|
  {
    if envp == [] then [] else RestoredEach(envp[..|envp| - 1], path) + [Restored(envp[|envp| - 1], path)]
  }

  lemma PlatformOrPremangled(v: string)
    ensures !(IsPlatformVar(v) && StartsWith(v, GUEST_PREFIX))
    ensures IsPlatformVar(v) ==> v[0] == 'L'
  {
  }

  lemma DemanglePrefixed(x: string)
    requires IsPlatformVar(x)
    ensures DemangleVar(GUEST_PREFIX + x) == [x]
  {
    var v := GUEST_PREFIX + x;
    assert v[|GUEST_PREFIX|..] == x;
    PlatformOrPremangled(v);
  }

  lemma WithPathPlatform(v: string, path: Maybe<string>)
    requires IsPlatformVar(v)
    ensures IsPlatformVar(WithPath(v, path))
  {
    if path.Some? && SetsLibraryPath(v) {
      assert LD_LIBRARY_PATH <= WithPath(v, path);
    }
  }

  lemma DemangleMangledVar(v: string, path: Maybe<string>)
    ensures DemangleVar(MangleVar(v, path)) == [Restored(v, path)]
  {
    if IsPlatformVar(v) {
      WithPathPlatform(v, path);
      DemanglePrefixed(WithPath(v, path));
      PlatformOrPremangled(v);
    } else {
      assert "" + v == v;
    }
  }

  lemma {:induction false} DemangleAppend(vs: seq<string>, v: string)
    ensures Demangled(vs + [v]) == Demangled(vs) + DemangleVar(v)
  {
    assert (vs + [v])[..|vs|] == vs;
  }

  lemma {:induction false} DemangleMangledEach(envp: seq<string>, path: Maybe<string>)
    ensures Demangled(MangleEach(envp, path)) == RestoredEach(envp, path)
  {
    if envp != [] {
      var rest, v := envp[..|envp| - 1], envp[|envp| - 1];
      DemangleMangledEach(rest, path);
      DemangleAppend(MangleEach(rest, path), MangleVar(v, path));
      DemangleMangledVar(v, path);
    }
  }

  lemma {:induction false} RestoredAt(envp: seq<string>, path: Maybe<string>, i: nat)
    requires i < |envp|
    ensures RestoredEach(envp, path)[i] == Restored(envp[i], path)
  {
    var n := |envp| - 1;
    if i < n {
      RestoredAt(envp[..n], path, i);
    }
  }

  /** A premangled variable is not a platform variable, so it comes back without the prefix it had. */
  lemma RestoredExactly(v: string, path: Maybe<string>)
    ensures Restored(v, path) == WithPath(v, path) <==> !Premangled(v)
  {
    if Premangled(v) {
      PlatformOrPremangled(v);
      assert |v[|GUEST_PREFIX|..]| < |v|;
    }
  }

  lemma EachRestored(envp: seq<string>, path: Maybe<string>)
    ensures RestoredEach(envp, path) == EachWithPath(envp, path) <==> forall v | v in envp :: !Premangled(v)
  {
    var a, b := RestoredEach(envp, path), EachWithPath(envp, path);
    forall i | 0 <= i < |envp| ensures a[i] == b[i] <==> !Premangled(envp[i]) {
      RestoredAt(envp, path, i);
      RestoredExactly(envp[i], path);
    }
    if a == b {
      forall v | v in envp ensures !Premangled(v) {
        var i :| 0 <= i < |envp| && envp[i] == v;
        assert a[i] == b[i];
      }
    }
  }

  lemma SameEnding(a: seq<string>, b: seq<string>, c: seq<string>)
    requires |a| == |b|
    ensures a + c == b + c <==> a == b
  {
    assert (a + c)[..|a|] == a && (b + c)[..|b|] == b;
  }

  /** The guest program sees the environment it was given, if and only if no variable already looked mangled. */
  lemma RoundTripExactly(envp: seq<string>, path: Maybe<string>)
    ensures Demangled(Mangled(envp, path)) == Intended(envp, path) <==> forall v | v in envp :: !Premangled(v)
  {
    DemangleMangled(envp, path);
    EachRestored(envp, path);
    SameEnding(RestoredEach(envp, path), EachWithPath(envp, path),
               if AddsPath(envp, path) then [LD_LIBRARY_PATH + path.value] else []);
  }

  /** A variable the user has mangled already comes back unmangled. */
  lemma PremangledExample()
    ensures var envp := ["BERBERIS_GUEST_LD_DEBUG=1"];
            Demangled(Mangled(envp, None)) == ["LD_DEBUG=1"] && Demangled(Mangled(envp, None)) != Intended(envp, None)
  {
    var v := "BERBERIS_GUEST_LD_DEBUG=1";
    assert v[|GUEST_PREFIX|..] == "LD_DEBUG=1" && GUEST_PREFIX <= v && "LD_DEBUG=" <= "LD_DEBUG=1";
    PlatformOrPremangled(v);
    assert Premangled(v);
    DemangleMangled([v], None);
    RestoredAt([v], None, 0);
    assert RestoredEach([v], None) == ["LD_DEBUG=1"];
    RoundTripExactly([v], None);
    assert v in [v];
  }

  /** A library path that mangling has added comes back without the prefix. */
  lemma DemangleAddedPath(p: string)
    ensures DemangleVar(GUEST_PREFIX + LD_LIBRARY_PATH + p) == [LD_LIBRARY_PATH + p]
  {
    var x := LD_LIBRARY_PATH + p;
    assert GUEST_PREFIX + LD_LIBRARY_PATH + p == GUEST_PREFIX + x;
    DemanglePrefixed(x);
  }

  lemma DemangleOneMore(vs: seq<string>, restored: seq<string>, v: string, w: string)
    requires Demangled(vs) == restored && DemangleVar(v) == [w]
    ensures Demangled(vs + [v]) == restored + [w]
  {
    DemangleAppend(vs, v);
  }

  lemma DemangleMangled(envp: seq<string>, path: Maybe<string>)
    ensures Demangled(Mangled(envp, path))
         == RestoredEach(envp, path) + if AddsPath(envp, path) then [LD_LIBRARY_PATH + path.value] else []
  {
    if AddsPath(envp, path) {
      DemangleMangledAndPath(envp, path);
    } else {
      DemangleMangledEach(envp, path);
      assert MangleEach(envp, path) + [] == MangleEach(envp, path);
      assert RestoredEach(envp, path) + [] == RestoredEach(envp, path);
    }
  }

  lemma DemangleMangledAndPath(envp: seq<string>, path: Maybe<string>)
    requires AddsPath(envp, path)
    ensures Demangled(Mangled(envp, path)) == RestoredEach(envp, path) + [LD_LIBRARY_PATH + path.value]
  {
    DemangleMangledEach(envp, path);
    DemangleAddedPath(path.value);
    DemangleOneMore(MangleEach(envp, path), RestoredEach(envp, path),
                    GUEST_PREFIX + LD_LIBRARY_PATH + path.value, LD_LIBRARY_PATH + path.value);
  }

  // What that environment is, variable by variable.

  /** The guest searches the prefix first, and then where it would have searched anyway. */
  lemma LibraryPathComesBack(dirs: string, p: string)
    ensures Demangled(Mangled(["LD_LIBRARY_PATH=" + dirs], Some(p))) == ["LD_LIBRARY_PATH=" + p + ":" + dirs]
  {
    var v := "LD_LIBRARY_PATH=" + dirs;
    assert v[|LD_LIBRARY_PATH|..] == dirs;
    assert v in [v] && SetsLibraryPath(v);
    DemangleMangled([v], Some(p));
    RestoredAt([v], Some(p), 0);
    PlatformOrPremangled(v);
    assert RestoredEach([v], Some(p)) == [Restored(v, Some(p))];
  }

  /** Every variable comes back in its place: a library path with the prefix in front, anything else unchanged. */
  lemma EachComesBack(envp: seq<string>, path: Maybe<string>, i: nat)
    requires i < |envp| && !Premangled(envp[i])
    ensures var out := Demangled(Mangled(envp, path));
            && |envp| <= |out|
            && out[i] == if path.Some? && "LD_LIBRARY_PATH=" <= envp[i]
                         then "LD_LIBRARY_PATH=" + path.value + ":" + envp[i][16..] else envp[i]
  {
    DemangleMangled(envp, path);
    RestoredAt(envp, path, i);
    assert |LD_LIBRARY_PATH| == 16;
  }

  /** After them comes the prefix on its own, exactly if there was no library path to put it in front of. */
  lemma OnePathAdded(envp: seq<string>, path: Maybe<string>)
    ensures var out := Demangled(Mangled(envp, path));
            && |envp| <= |out|
            && out[|envp|..] == if path.Some? && !(exists v | v in envp :: "LD_LIBRARY_PATH=" <= v)
                                then ["LD_LIBRARY_PATH=" + path.value] else []
  {
    DemangleMangled(envp, path);
    assert AddsPath(envp, path) <==> path.Some? && !(exists v | v in envp :: "LD_LIBRARY_PATH=" <= v);
  }

  predicate HostReads(v: string) {
    || "LD_CONFIG_FILE=" <= v
    || "LD_LIBRARY_PATH=" <= v
    || "LD_DEBUG=" <= v
    || "LD_PRELOAD=" <= v
  }

  /** The host's linker sees none of the guest's variables. */
  lemma {:induction false} HiddenFromHost(envp: seq<string>, path: Maybe<string>, v: string)
    requires v in Mangled(envp, path)
    ensures !HostReads(v)
  {
    if v in MangleEach(envp, path) {
      EachHidden(envp, path, v);
    } else {
      assert v[0] == 'B';
    }
  }

  lemma {:induction false} EachHidden(envp: seq<string>, path: Maybe<string>, v: string)
    requires v in MangleEach(envp, path)
    ensures !HostReads(v)
  {
    var rest, last := envp[..|envp| - 1], envp[|envp| - 1];
    if v in MangleEach(rest, path) {
      EachHidden(rest, path, v);
    } else if IsPlatformVar(last) {
      assert v[0] == 'B';
    } else {
      assert v == last;
    }
  }

  /** The guest sees none of the host's: what it sees of these was mangled before. */
  lemma {:induction false} HiddenFromGuest(envp: seq<string>, v: string)
    requires v in Demangled(envp) && HostReads(v)
    ensures GUEST_PREFIX + v in envp
  {
    var rest, last := envp[..|envp| - 1], envp[|envp| - 1];
    if v in Demangled(rest) {
      HiddenFromGuest(rest, v);
    } else {
      assert last == GUEST_PREFIX + v;
    }
  }

  method DemangleGuestEnvp(envp: seq<string>) returns (dst: seq<string>)
    ensures dst == Demangled(envp)
  {
    dst := [];
    for i := 0 to |envp|
      invariant dst == Demangled(envp[..i])
    {
      var env := envp[i];
      assert envp[..i + 1][..i] == envp[..i];
      if IsPlatformVar(env) {
        continue;
      }
      if StartsWith(env, GUEST_PREFIX) && IsPlatformVar(env[|GUEST_PREFIX|..]) {
        env := env[|GUEST_PREFIX|..];
      }
      dst := dst + [env];
    }
    assert envp[..|envp|] == envp;
  }

  // ---------------------------------------------------------------------------------------------- the buffer

  /** The text of an environment: each string followed by its terminator. */
  function Text(vs: seq<string>): string {
    if vs == [] then [] else Text(vs[..|vs| - 1]) + vs[|vs| - 1] + ['\0']
  }

  /** A byte of the buffer. The first byte of a pointer stands for the pointer, the others are Blank. */
  datatype Cell = Blank | Char(c: char) | Pointer(to: nat) | NullPointer

  const POINTER_SIZE: nat := 8

  function Chars(s: string): seq<Cell> {
    seq(|s|, i requires 0 <= i < |s| => Char(s[i]))
  }

  /**
   The result of mangling: null for null, the caller's own array when nothing has to change, or a new buffer
   that begins with the array of pointers.
   */
  datatype Envp = NullEnvp | Unchanged | Rebuilt(data: array<Cell>)

  /** The array takes one pointer for each string and one for the terminating null. */
  function ArraySize(n: nat): nat {
    POINTER_SIZE * (n + 1)
  }

  /** The buffer is exactly the array and the text: no byte is missing and none is left over. */
  ghost predicate Holds(data: seq<Cell>, vs: seq<string>) {
    var base := ArraySize(|vs|);
    && |data| == base + |Text(vs)| && data[base..] == Chars(Text(vs))
    && (forall i | 0 <= i < |vs| :: data[POINTER_SIZE * i] == Pointer(base + |Text(vs[..i])|))
    && data[POINTER_SIZE * |vs|] == NullPointer
  }

  lemma TextAppend(vs: seq<string>, v: string)
    ensures Text(vs + [v]) == Text(vs) + v + ['\0']
  {
    assert (vs + [v])[..|vs|] == vs;
  }

  lemma TextStep(vs: seq<string>, i: nat)
    requires i < |vs|
    ensures Text(vs[..i + 1]) == Text(vs[..i]) + (vs[i] + ['\0'])
    ensures |Text(vs[..i])| + |vs[i]| + 1 <= |Text(vs)|
  {
    assert vs[..i + 1] == vs[..i] + [vs[i]];
    TextAppend(vs[..i], vs[i]);
    TextPrefix(vs, i + 1);
  }

  lemma {:induction false} TextPrefix(vs: seq<string>, i: nat)
    requires i <= |vs|
    ensures Text(vs[..i]) <= Text(vs)
  {
    if i == |vs| {
      assert vs[..i] == vs;
    } else {
      var n := |vs| - 1;
      TextPrefix(vs[..n], i);
      assert vs[..n][..i] == vs[..i];
    }
  }

  lemma CharsJoin(s: string, t: string)
    ensures Chars(s + t) == Chars(s) + Chars(t)
  {
  }

  /** What a C program reads through the i-th pointer is the string i. */
  lemma HoldsReads(data: seq<Cell>, vs: seq<string>, i: nat)
    requires Holds(data, vs) && i < |vs|
    ensures var cell := data[POINTER_SIZE * i];
            && cell.Pointer? && cell.to + |vs[i]| < |data|
            && data[cell.to..cell.to + |vs[i]|] == Chars(vs[i]) && data[cell.to + |vs[i]|] == Char('\0')
    ensures IsCString(vs[i]) ==> Char('\0') !in Chars(vs[i])
  {
    var base, before := ArraySize(|vs|), Text(vs[..i]);
    TextStep(vs, i);
    TextPrefix(vs, i + 1);
    MiddleOf(data[base..], Text(vs), before, vs[i]);
    var p := base + |before|;
    assert data[base..][|before|..|before| + |vs[i]|] == data[p..p + |vs[i]|];
  }

  lemma MiddleOf(cells: seq<Cell>, text: string, before: string, v: string)
    requires before + (v + ['\0']) <= text && cells == Chars(text)
    ensures |before| + |v| < |cells| && cells[|before|..|before| + |v|] == Chars(v)
    ensures cells[|before| + |v|] == Char('\0')
  {
    var whole := before + (v + ['\0']);
    assert text[..|whole|] == whole;
    assert forall k | 0 <= k < |v| :: text[|before| + k] == whole[|before| + k] == v[k];
    assert text[|before| + |v|] == whole[|before| + |v|];
  }

  /** strcpy: the string and its terminator; nothing before them changes. */
  method Strcpy(data: array<Cell>, at: nat, s: string)
    requires at + |s| < data.Length
    modifies data
    ensures forall k | 0 <= k < at :: data[k] == old(data[k])
    ensures data[at..at + |s| + 1] == Chars(s + ['\0'])
  {
    for i := 0 to |s|
      invariant forall k | 0 <= k < at :: data[k] == old(data[k])
      invariant forall k | 0 <= k < i :: data[at + k] == Char(s[k])
    {
      data[at + i] := Char(s[i]);
    }
    data[at + |s|] := Char('\0');
  }

  // ---------------------------------------------------------------------------------------------- mangling

  /** The bytes the counting loop adds for one variable, without the guest prefix. */
  function CountedText(v: string, path: Maybe<string>): nat {
    (if path.Some? && SetsLibraryPath(v) then |path.value| + 1 else 0) + |v| + 1
  }

  function TextCount(envp: seq<string>, path: Maybe<string>): nat {
    if envp == [] then 0 else TextCount(envp[..|envp| - 1], path) + CountedText(envp[|envp| - 1], path)
  }

  function MangleCount(envp: seq<string>): nat {
    if envp == [] then 0 else MangleCount(envp[..|envp| - 1]) + if IsPlatformVar(envp[|envp| - 1]) then 1 else 0
  }

  predicate HasPath(envp: seq<string>) {
    envp != [] && (HasPath(envp[..|envp| - 1]) || SetsLibraryPath(envp[|envp| - 1]))
  }

  method CountEnvp(envp: seq<string>, path: Maybe<string>) returns (textSize: nat, mangleCount: nat, hasPath: bool)
    ensures textSize == TextCount(envp, path) && mangleCount == MangleCount(envp) && hasPath == HasPath(envp)
  {
    textSize, mangleCount, hasPath := 0, 0, false;
    for i := 0 to |envp|
      invariant textSize == TextCount(envp[..i], path)
      invariant mangleCount == MangleCount(envp[..i]) && hasPath == HasPath(envp[..i])
    {
      var env := envp[i];
      assert envp[..i + 1][..i] == envp[..i] && envp[..i + 1][i] == env;
      if IsPlatformVar(env) {
        mangleCount := mangleCount + 1;
      }
      if SetsLibraryPath(env) {
        hasPath := true;
        if path.Some? {
          textSize := textSize + |path.value| + 1;
        }
      }
      textSize := textSize + |env| + 1;
    }
    assert envp[..|envp|] == envp;
  }

  lemma MangledLength(v: string, path: Maybe<string>)
    ensures |MangleVar(v, path)| + 1 == CountedText(v, path) + if IsPlatformVar(v) then PREFIX_SIZE else 0
  {
  }

  const PREFIX_SIZE: nat := 15

  /** What is counted is what the mangled strings take. */
  lemma {:induction false} CountsMatch(envp: seq<string>, path: Maybe<string>)
    ensures TextCount(envp, path) + PREFIX_SIZE * MangleCount(envp) == |Text(MangleEach(envp, path))|
    decreases |envp|
  {
    if envp != [] {
      var rest, v := envp[..|envp| - 1], envp[|envp| - 1];
      CountsMatch(rest, path);
      TextAppend(MangleEach(rest, path), MangleVar(v, path));
      MangledLength(v, path);
    }
  }

  lemma {:induction false} NoneCounted(envp: seq<string>)
    ensures MangleCount(envp) == 0 <==> forall v | v in envp :: !IsPlatformVar(v)
    ensures HasPath(envp) <==> exists v | v in envp :: SetsLibraryPath(v)
  {
    if envp != [] {
      var rest, v := envp[..|envp| - 1], envp[|envp| - 1];
      NoneCounted(rest);
      assert envp == rest + [v];
    }
  }

  lemma UnmangledVar(v: string, path: Maybe<string>)
    requires !IsPlatformVar(v)
    ensures MangleVar(v, path) == v
  {
    assert "" + v == v;
  }

  /** Nothing to mangle and nothing to add: the environment is already what would be built. */
  lemma {:induction false} NothingToMangle(envp: seq<string>, path: Maybe<string>)
    requires forall v | v in envp :: !IsPlatformVar(v)
    ensures MangleEach(envp, path) == envp
  {
    if envp != [] {
      var rest, v := envp[..|envp| - 1], envp[|envp| - 1];
      NothingToMangle(rest, path);
      assert v in envp && envp == rest + [v];
      UnmangledVar(v, path);
    }
  }

  /** Two strings one after the other: the second starts on the terminator of the first. */
  method Strcpy2(data: array<Cell>, at: nat, s: string, t: string)
    requires at + |s| + |t| < data.Length
    modifies data
    ensures forall k | 0 <= k < at :: data[k] == old(data[k])
    ensures data[at..at + |s + t| + 1] == Chars(s + t + ['\0'])
  {
    Strcpy(data, at, s);
    assert data[at..at + |s|] == Chars(s) by {
      assert data[at..at + |s|] == data[at..at + |s| + 1][..|s|];
    }
    var middle := at + |s|;
    ghost var first := data[at..middle];
    Strcpy(data, middle, t);
    assert data[at..middle] == first;
    Joined(data[at..middle + |t| + 1], s, t + ['\0']);
    assert s + t + ['\0'] == s + (t + ['\0']);
  }

  lemma Joined(cells: seq<Cell>, s: string, t: string)
    requires |cells| == |s| + |t| && cells[..|s|] == Chars(s) && cells[|s|..] == Chars(t)
    ensures cells == Chars(s + t)
  {
    CharsJoin(s, t);
    assert cells == cells[..|s|] + cells[|s|..];
  }

  method Strcpy3(data: array<Cell>, at: nat, s: string, t: string, u: string)
    requires at + |s| + |t| + |u| < data.Length
    modifies data
    ensures forall k | 0 <= k < at :: data[k] == old(data[k])
    ensures data[at..at + |s + t + u| + 1] == Chars(s + t + u + ['\0'])
  {
    Strcpy(data, at, s);
    assert data[at..at + |s|] == Chars(s) by {
      assert data[at..at + |s|] == data[at..at + |s| + 1][..|s|];
    }
    var middle := at + |s|;
    ghost var first := data[at..middle];
    Strcpy2(data, middle, t, u);
    assert data[at..middle] == first;
    Joined(data[at..middle + |t + u| + 1], s, t + u + ['\0']);
    assert s + t + u + ['\0'] == s + (t + u + ['\0']);
  }

  /** A name, a path, a colon and the old path. */
  method WriteLibraryPath(data: array<Cell>, at: nat, name: string, path: string, oldPath: string)
    requires at + |name| + |path| + 1 + |oldPath| < data.Length
    modifies data
    ensures forall k | 0 <= k < at :: data[k] == old(data[k])
    ensures data[at..at + |name + path + ":" + oldPath| + 1] == Chars(name + path + ":" + oldPath + ['\0'])
  {
    Strcpy2(data, at, name, path);
    var colon := at + |name + path|;
    assert data[at..colon] == Chars(name + path) by {
      assert data[at..colon] == data[at..colon + 1][..|name + path|];
    }
    ghost var first := data[at..colon];
    data[colon] := Char(':');
    assert data[at..colon] == first;
    Joined(data[at..colon + 1], name + path, ":");
    first := data[at..colon + 1];
    Strcpy(data, colon + 1, oldPath);
    assert data[at..colon + 1] == first;
    Joined(data[at..colon + 1 + |oldPath| + 1], name + path + ":", oldPath + ['\0']);
    assert name + path + ":" + oldPath + ['\0'] == name + path + ":" + (oldPath + ['\0']);
  }

  /** Writes one variable, and leaves the position just after its terminator. */
  method WriteVar(data: array<Cell>, at: nat, env: string, path: Maybe<string>) returns (next: nat)
    requires at + |MangleVar(env, path)| < data.Length
    modifies data
    ensures forall k | 0 <= k < at :: data[k] == old(data[k])
    ensures next == at + |MangleVar(env, path)| + 1
    ensures data[at..next] == Chars(MangleVar(env, path) + ['\0'])
  {
    ghost var rest := WithPath(env, path);
    if IsPlatformVar(env) {
      Strcpy(data, at, GUEST_PREFIX);
      var middle := at + |GUEST_PREFIX|;
      assert data[at..middle] == Chars(GUEST_PREFIX) by {
        assert data[at..middle] == data[at..middle + 1][..|GUEST_PREFIX|];
      }
      ghost var first := data[at..middle];
      next := WriteValue(data, middle, env, path);
      assert data[at..middle] == first;
      Joined(data[at..next], GUEST_PREFIX, rest + ['\0']);
      assert GUEST_PREFIX + rest + ['\0'] == GUEST_PREFIX + (rest + ['\0']);
    } else {
      assert "" + rest == rest;
      next := WriteValue(data, at, env, path);
    }
  }

  method WriteValue(data: array<Cell>, at: nat, env: string, path: Maybe<string>) returns (next: nat)
    requires at + |WithPath(env, path)| < data.Length
    modifies data
    ensures forall k | 0 <= k < at :: data[k] == old(data[k])
    ensures next == at + |WithPath(env, path)| + 1
    ensures data[at..next] == Chars(WithPath(env, path) + ['\0'])
  {
    if path.Some? && SetsLibraryPath(env) {
      WriteLibraryPath(data, at, LD_LIBRARY_PATH, path.value, env[|LD_LIBRARY_PATH|..]);
    } else {
      Strcpy(data, at, env);
    }
    next := at + |WithPath(env, path)| + 1;
  }

  /** The buffer while it is filled: i pointers, and the text of i strings after the array. */
  ghost predicate Filled(data: seq<Cell>, base: nat, vs: seq<string>, i: nat, at: nat) {
    && i <= |vs| && POINTER_SIZE * i <= base <= at <= |data| && at == base + |Text(vs[..i])|
    && data[base..at] == Chars(Text(vs[..i]))
    && (forall j | 0 <= j < i :: data[POINTER_SIZE * j] == Pointer(base + |Text(vs[..j])|))
  }

  lemma FilledNext(before: seq<Cell>, data: seq<Cell>, base: nat, vs: seq<string>, i: nat, at: nat, next: nat)
    requires Filled(before, base, vs, i, at) && i < |vs| && POINTER_SIZE * i < base && |data| == |before|
    requires forall k | 0 <= k < at && k != POINTER_SIZE * i :: data[k] == before[k]
    requires data[POINTER_SIZE * i] == Pointer(at)
    requires at <= next <= |data| && data[at..next] == Chars(vs[i] + ['\0'])
    ensures POINTER_SIZE * (i + 1) <= base ==> Filled(data, base, vs, i + 1, next)
  {
    TextStep(vs, i);
    assert data[base..at] == before[base..at];
    assert |Chars(vs[i] + ['\0'])| == |vs[i]| + 1;
    var cells := data[base..next];
    assert cells[..at - base] == data[base..at] && cells[at - base..] == data[at..next];
    Joined(cells, Text(vs[..i]), vs[i] + ['\0']);
  }

  /** One turn of the loop: a pointer in the array and the string at the end of the text. */
  method WriteNext(data: array<Cell>, base: nat, ghost vs: seq<string>, i: nat, at: nat, env: string,
                   path: Maybe<string>)
    returns (next: nat)
    requires i < |vs| && POINTER_SIZE * |vs| <= base && base + |Text(vs)| <= data.Length
    requires vs[i] == MangleVar(env, path) && Filled(data[..], base, vs, i, at)
    modifies data
    ensures Filled(data[..], base, vs, i + 1, next)
  {
    ghost var before := data[..];
    TextStep(vs, i);
    data[POINTER_SIZE * i] := Pointer(at);
    next := WriteVar(data, at, env, path);
    FilledNext(before, data[..], base, vs, i, at, next);
  }

  /** The loop over the variables. */
  method WriteVars(envp: seq<string>, path: Maybe<string>, data: array<Cell>, base: nat) returns (at: nat)
    requires POINTER_SIZE * |envp| <= base && base + |Text(MangleEach(envp, path))| <= data.Length
    modifies data
    ensures Filled(data[..], base, MangleEach(envp, path), |envp|, at)
  {
    at := base;
    ghost var vs := MangleEach(envp, path);
    for i := 0 to |envp|
      invariant Filled(data[..], base, vs, i, at)
    {
      MangleEachAt(envp, path, i);
      at := WriteNext(data, base, vs, i, at, envp[i], path);
    }
  }

  lemma {:induction false} MangleEachAt(envp: seq<string>, path: Maybe<string>, i: nat)
    requires i < |envp|
    ensures MangleEach(envp, path)[i] == MangleVar(envp[i], path)
  {
    var n := |envp| - 1;
    var rest := MangleEach(envp[..n], path);
    assert MangleEach(envp, path) == rest + [MangleVar(envp[n], path)];
    if i < n {
      MangleEachAt(envp[..n], path, i);
      assert envp[..n][i] == envp[i];
    }
  }

  method MangleGuestEnvp(envp: Maybe<seq<string>>, path: Maybe<string>) returns (r: Envp)
    ensures r.NullEnvp? <==> envp.None?
    ensures r.Unchanged? ==> Mangled(envp.value, path) == envp.value
    ensures r.Unchanged? <==>
              envp.Some? && !AddsPath(envp.value, path) && forall v | v in envp.value :: !IsPlatformVar(v)
    ensures r.Rebuilt? ==> fresh(r.data) && Holds(r.data[..], Mangled(envp.value, path))
  {
    if envp.None? {
      return NullEnvp;
    }
    var vars := envp.value;
    var textSize, mangleCount, hasPath := CountEnvp(vars, path);
    NoneCounted(vars);
    CountsMatch(vars, path);
    var addPath := path.Some? && !hasPath;
    if mangleCount == 0 && !addPath {
      NothingToMangle(vars, path);
      return Unchanged;
    }
    if addPath {
      textSize := textSize + |GUEST_PREFIX| + |LD_LIBRARY_PATH| + |path.value| + 1;
    }
    var newCount := |vars| + if addPath then 1 else 0;
    var data := new Cell[ArraySize(newCount) + textSize + PREFIX_SIZE * mangleCount];
    r := Rebuilt(data);
    if addPath {
      FillAndAdd(vars, path, data);
    } else {
      Fill(vars, path, data);
    }
  }

  method Fill(vars: seq<string>, path: Maybe<string>, data: array<Cell>)
    requires !AddsPath(vars, path) && data.Length == ArraySize(|vars|) + |Text(MangleEach(vars, path))|
    modifies data
    ensures Holds(data[..], Mangled(vars, path))
  {
    ghost var vs := MangleEach(vars, path);
    var at := WriteVars(vars, path, data, ArraySize(|vars|));
    assert vs[..|vars|] == vs && vs + [] == vs;
    ghost var before := data[..];
    data[POINTER_SIZE * |vars|] := NullPointer;
    FilledHolds(before, data[..], vs, at);
  }

  lemma FilledHolds(before: seq<Cell>, data: seq<Cell>, vs: seq<string>, at: nat)
    requires Filled(before, ArraySize(|vs|), vs, |vs|, at) && at == |before|
    requires data == before[POINTER_SIZE * |vs| := NullPointer]
    ensures Holds(data, vs)
  {
    var base := ArraySize(|vs|);
    assert vs[..|vs|] == vs;
    assert data[base..] == before[base..at];
  }

  /** With a library path added at the end. */
  method FillAndAdd(vars: seq<string>, path: Maybe<string>, data: array<Cell>)
    requires AddsPath(vars, path)
    requires data.Length == ArraySize(|vars| + 1) + |Text(MangleEach(vars, path))|
                            + |GUEST_PREFIX| + |LD_LIBRARY_PATH| + |path.value| + 1
    modifies data
    ensures Holds(data[..], Mangled(vars, path))
  {
    ghost var vs := MangleEach(vars, path);
    var at := WriteVars(vars, path, data, ArraySize(|vars| + 1));
    assert vs[..|vars|] == vs;
    AddLast(|vars|, vs, data, at, GUEST_PREFIX, LD_LIBRARY_PATH, path.value);
  }

  /** One more string, made of three, and the terminating null. */
  method AddLast(n: nat, ghost vs: seq<string>, data: array<Cell>, at: nat, s: string, t: string, u: string)
    requires n == |vs| && Filled(data[..], ArraySize(n + 1), vs, n, at) && data.Length == at + |s| + |t| + |u| + 1
    modifies data
    ensures Holds(data[..], vs + [s + t + u])
  {
    ghost var before := data[..];
    data[POINTER_SIZE * n] := Pointer(at);
    Strcpy3(data, at, s, t, u);
    assert data[at..] == data[at..at + |s + t + u| + 1];
    FilledAdded(before, data[..], ArraySize(n + 1), vs, s + t + u, at);
    before := data[..];
    data[POINTER_SIZE * (n + 1)] := NullPointer;
    FilledHolds(before, data[..], vs + [s + t + u], data.Length);
  }

  lemma FilledAdded(before: seq<Cell>, data: seq<Cell>, base: nat, vs: seq<string>, v: string, at: nat)
    requires base == ArraySize(|vs| + 1) && Filled(before, base, vs, |vs|, at) && |data| == |before| == at + |v| + 1
    requires forall k | 0 <= k < at && k != POINTER_SIZE * |vs| :: data[k] == before[k]
    requires data[POINTER_SIZE * |vs|] == Pointer(at) && data[at..] == Chars(v + ['\0'])
    ensures Filled(data, base, vs + [v], |vs| + 1, |data|)
  {
    var more := vs + [v];
    forall j | 0 <= j <= |vs| ensures more[..j] == vs[..j] {
    }
    assert Filled(before, base, more, |vs|, at);
    assert data[at..|data|] == data[at..];
    FilledNext(before, data, base, more, |vs|, at, |data|);
  }
}
