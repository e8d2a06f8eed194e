/**
 Symbol lookup through the two ELF hash tables. Hashes are 32-bit and wrap. The words of the bloom filter are
 named by their 32-bit number; every other table is a sequence.
 */
module SymbolTable {

  const STB_GLOBAL: bv8 := 1
  const STB_WEAK: bv8 := 2
  const SHN_UNDEF: nat := 0
  const ADDRESSES: nat := 0x1_0000_0000_0000_0000

  datatype Symbol = Symbol(name: nat, info: bv8, shndx: nat, value: nat)

  /** What both kinds of table index. */
  datatype Symbols = Symbols(bias: nat, all: seq<Symbol>, strtab: seq<bv8>)

  datatype GnuTable = GnuTable(
    symbols: Symbols, offset: nat, maskwords: bv32, shift2: bv32, bloom: map<bv32, bv64>, buckets: seq<nat>,
    chains: seq<bv32>)

  datatype SysvTable = SysvTable(symbols: Symbols, buckets: seq<nat>, chains: seq<nat>)

  datatype Lookup = Null | Address(a: nat)

  datatype Index = NoIndex | Index(n: nat)

  // ---------------------------------------------------------------------------------------------- hashes

  function GnuStep(h: bv32, c: bv32): bv32 {
    h + ((h << 5) + c)
  }

  /** Shifting and adding is multiplying by 33, on words that wrap. */
  lemma ShiftIsTimes(h: bv32, c: bv32)
    ensures h + ((h << 5) + c) == h * 33 + c
  {
  }

  function TopBits(a: bv32): bv32 {
    a & 0xf000_0000
  }

  /** One character in the hashing function of chapter 5 of the System V gABI. */
  function SysvStep(h: bv32, c: bv32): bv32 {
    Mixed((h << 4) + c)
  }

  function Mixed(a: bv32): bv32 {
    (a ^ (TopBits(a) >> 24)) & !TopBits(a)
  }

  function GnuHashOf(name: seq<bv8>): bv32 {
    if name == [] then 5381 else GnuStep(GnuHashOf(name[..|name| - 1]), name[|name| - 1] as bv32)
  }

  function SysvHashOf(name: seq<bv8>): bv32 {
    if name == [] then 0 else SysvStep(SysvHashOf(name[..|name| - 1]), name[|name| - 1] as bv32)
  }

  method GnuHash(name: seq<bv8>) returns (h: bv32)
    ensures h == GnuHashOf(name)
  {
    h := 5381;
    for i := 0 to |name|
      invariant h == GnuHashOf(name[..i])
    {
      assert name[..i + 1][..i] == name[..i];
      h := GnuStep(h, name[i] as bv32);
    }
    assert name[..|name|] == name;
  }

  method SysvHash(name: seq<bv8>) returns (h: bv32)
    ensures h == SysvHashOf(name)
  {
    h := 0;
    for i := 0 to |name|
      invariant h == SysvHashOf(name[..i])
    {
      assert name[..i + 1][..i] == name[..i];
      h := SysvAddChar(h, name[i] as bv32);
    }
    assert name[..|name|] == name;
  }

  method SysvAddChar(h: bv32, c: bv32) returns (r: bv32)
    ensures r == SysvStep(h, c)
  {
    r := FoldTop((h << 4) + c);
  }

  method FoldTop(a: bv32) returns (r: bv32)
    ensures r == Mixed(a)
  {
    var g := a & 0xf000_0000;
    r := ExclusiveOrTwice(a, g);
  }

  /** The source clears the top bits with an exclusive or where the standard masks them. */
  method ExclusiveOrTwice(a: bv32, g: bv32) returns (r: bv32)
    requires g == a & 0xf000_0000
    ensures r == (a ^ (g >> 24)) & !g
  {
    r := a ^ g;
    r := r ^ (g >> 24);
  }

  const EXIT: seq<bv8> := [101, 120, 105, 116]

  /** The published values of both hashes for the name "exit". */
  lemma KnownHashes()
    ensures GnuHashOf(EXIT) == 0x7c96_7e3f
    ensures SysvHashOf(EXIT) == 0x0006_cf04
  {
    var s := EXIT;
    assert s[..0] == [] && s[..4] == s;
    assert s[..1][..0] == s[..0] && s[..2][..1] == s[..1] && s[..3][..2] == s[..2] && s[..4][..3] == s[..3];
    assert GnuHashOf(s[..1]) == GnuStep(5381, 101) == 177674;
    assert GnuHashOf(s[..2]) == GnuStep(177674, 120) == 5863362;
    assert GnuHashOf(s[..3]) == GnuStep(5863362, 105) == 193491051;
    assert SysvHashOf(s[..1]) == SysvStep(0, 101) == 101;
    assert SysvHashOf(s[..2]) == SysvStep(101, 120) == 1736;
    assert SysvHashOf(s[..3]) == SysvStep(1736, 105) == 27881;
  }

  // ---------------------------------------------------------------------------------------------- symbols

  /** The C string that starts at an index of the string table. */
  function StringAt(strtab: seq<bv8>, i: nat): seq<bv8>
    requires i < |strtab| && strtab[|strtab| - 1] == 0
    decreases |strtab| - i
  {
    if strtab[i] == 0 then [] else [strtab[i]] + StringAt(strtab, i + 1)
  }

  /** It is the bytes up to the first zero. */
  lemma {:induction false} StringUpToZero(strtab: seq<bv8>, i: nat)
    requires i < |strtab| && strtab[|strtab| - 1] == 0
    ensures var r := StringAt(strtab, i);
            i + |r| < |strtab| && r == strtab[i..i + |r|] && strtab[i + |r|] == 0 && 0 !in r
    decreases |strtab| - i
  {
    if strtab[i] != 0 {
      StringUpToZero(strtab, i + 1);
    }
  }

  predicate SymbolsSafe(s: Symbols) {
    && s.strtab != [] && s.strtab[|s.strtab| - 1] == 0
    && forall n | 0 <= n < |s.all| :: s.all[n].name < |s.strtab|
  }

  function Name(s: Symbols, n: nat): seq<bv8>
    requires SymbolsSafe(s) && n < |s.all|
  {
    StringAt(s.strtab, s.all[n].name)
  }

  predicate Defined(s: Symbol) {
    (s.info >> 4 == STB_GLOBAL || s.info >> 4 == STB_WEAK) && s.shndx != SHN_UNDEF
  }

  /** The symbol is defined, global or weak, and has the name. */
  predicate Matches(s: Symbols, name: seq<bv8>, n: nat)
    requires SymbolsSafe(s)
  {
    n < |s.all| && Name(s, n) == name && Defined(s.all[n])
  }

  /** The reference: look at every symbol from an index on. */
  function LinearSearch(s: Symbols, name: seq<bv8>, from: nat): (r: Index)
    requires SymbolsSafe(s)
    ensures r.NoIndex? ==> forall n: nat | from <= n :: !Matches(s, name, n)
    ensures r.Index? ==> from <= r.n && Matches(s, name, r.n) && forall n: nat | from <= n < r.n :: !Matches(s, name, n)
    decreases |s.all| - from
  {
    if from >= |s.all| then NoIndex else if Matches(s, name, from) then Index(from) else LinearSearch(s, name, from + 1)
  }

  function AddressOf(s: Symbols, n: nat): Lookup
    requires n < |s.all|
  {
    Address((s.bias + s.all[n].value) % ADDRESSES)
  }

  /** A non-null answer is where a matching symbol was loaded. */
  ghost predicate Names(s: Symbols, name: seq<bv8>, from: nat, r: Lookup)
    requires SymbolsSafe(s)
  {
    r.Address? ==>
      exists n: nat | from <= n < |s.all| :: Matches(s, name, n) && r.a == (s.bias + s.all[n].value) % ADDRESSES
  }

  /** The answer is where the symbol found by the reference was loaded, and null if there is none. */
  predicate Answers(s: Symbols, found: Index, r: Lookup)
    requires found.Index? ==> found.n < |s.all|
  {
    match found
    case NoIndex => r.Null?
    case Index(n) => r.Address? && r.a == (s.bias + s.all[n].value) % ADDRESSES
  }

  /** The binding is the upper half of the info byte. */
  lemma DefinedExactly(s: Symbol)
    ensures Defined(s) <==> s.shndx != 0 && (s.info / 16 == 1 || s.info / 16 == 2)
  {
    UpperHalf(s.info);
  }

  lemma UpperHalf(x: bv8)
    ensures x >> 4 == x / 16
  {
  }

  // ---------------------------------------------------------------------------------------------- GNU table

  /** The walk stays inside the tables: chains end, and buckets are empty or start on a chain. */
  ghost predicate GnuSafe(t: GnuTable) {
    && SymbolsSafe(t.symbols) && t.offset + |t.chains| == |t.symbols.all|
    && t.shift2 < 32 && (forall w: bv32 | w <= t.maskwords :: w in t.bloom)
    && t.buckets != []
    && (forall b | 0 <= b < |t.buckets| :: t.buckets[b] == 0 || t.offset <= t.buckets[b] < |t.symbols.all|)
    && (t.chains != [] ==> ChainEnds(t.chains[|t.chains| - 1]))
  }

  predicate BitSet(w: bv64, x: bv64)
    requires x < 64
  {
    (w >> x) & 1 == 1
  }

  /** The program's test of both bits at once. */
  predicate BloomPass(w: bv64, x: bv64, y: bv64)
    requires x < 64 && y < 64
    ensures BloomPass(w, x, y) <==> BitSet(w, x) && BitSet(w, y)
  {
    BloomTest(w, x, y);
    1 & (w >> x) & (w >> y) != 0
  }

  lemma BloomTest(w: bv64, x: bv64, y: bv64)
    requires x < 64 && y < 64
    ensures 1 & (w >> x) & (w >> y) != 0 <==> (w >> x) & 1 == 1 && (w >> y) & 1 == 1
  {
  }

  /** The filter does not rule the hash out. */
  predicate BloomMayHold(t: GnuTable, h: bv32)
    requires GnuSafe(t)
  {
    WordInBounds(h, t.maskwords);
    BloomPass(t.bloom[(h / 64) & t.maskwords], (h % 64) as bv64, ((h >> t.shift2) % 64) as bv64)
  }

  /** What a linker puts into the filter for a hash: two bits of one word. */
  predicate InFilter(t: GnuTable, h: bv32)
    requires GnuSafe(t)
  {
    WordInBounds(h, t.maskwords);
    var w := t.bloom[(h / 64) & t.maskwords];
    BitSet(w, (h % 64) as bv64) && BitSet(w, ((h >> t.shift2) % 64) as bv64)
  }

  function BucketOf(h: bv32, count: nat): (b: nat)
    requires 0 < count
    ensures b < count
  {
    Modulo(h as nat, count)
  }

  function Modulo(x: nat, count: nat): (b: nat)
    requires 0 < count
    ensures b < count && x == x / count * count + b
  {
    x % count
  }

  predicate SameHash(a: bv32, b: bv32) {
    (a ^ b) >> 1 == 0
  }

  /** The words agree in all bits but the lowest. */
  predicate SameButLast(a: bv32, b: bv32) {
    a | 1 == b | 1
  }

  lemma SameHashExactly(a: bv32, b: bv32)
    ensures SameHash(a, b) <==> SameButLast(a, b)
  {
    OrOne(a, b);
  }

  lemma OrOne(a: bv32, b: bv32)
    ensures (a ^ b) >> 1 == 0 <==> a | 1 == b | 1
  {
  }

  predicate ChainEnds(a: bv32) {
    a & 1 == 1
  }

  /** The table has a symbol under a hash: bloom bits set, chain word agreeing, and its bucket's walk gets there. */
  ghost predicate OnWalk(t: GnuTable, hash: bv32, n: nat)
    requires GnuSafe(t) && t.offset <= n < |t.symbols.all|
  {
    var first := t.buckets[BucketOf(hash, |t.buckets|)];
    && InFilter(t, hash) && SameButLast(t.chains[n - t.offset], hash)
    && 0 < first <= n && t.offset <= first && forall m | first - t.offset <= m < n - t.offset :: !ChainEnds(t.chains[m])
  }

  ghost predicate GnuWellFormed(t: GnuTable) {
    GnuSafe(t) && forall n | t.offset <= n < |t.symbols.all| && Defined(t.symbols.all[n]) ::
      OnWalk(t, GnuHashOf(Name(t.symbols, n)), n)
  }

  lemma WordInBounds(h: bv32, maskwords: bv32)
    ensures (h / 64) & maskwords <= maskwords
  {
    AndBound(h / 64, maskwords);
  }

  lemma AndBound(x: bv32, m: bv32)
    ensures x & m <= m
  {
  }

  /** Filter, bucket and chain lead to the symbol. */
  ghost predicate LedTo(t: GnuTable, hash: bv32, n: nat)
    requires GnuSafe(t) && t.offset <= n < |t.symbols.all|
  {
    var first := t.buckets[BucketOf(hash, |t.buckets|)];
    && BloomMayHold(t, hash) && SameHash(t.chains[n - t.offset], hash)
    && 0 < first <= n && t.offset <= first && forall m | first - t.offset <= m < n - t.offset :: !ChainEnds(t.chains[m])
  }

  /** The program's tests pass for what a linker has entered. */
  lemma WalkLeadsTo(t: GnuTable, hash: bv32, n: nat)
    requires GnuSafe(t) && t.offset <= n < |t.symbols.all| && OnWalk(t, hash, n)
    ensures LedTo(t, hash, n)
  {
    FilterAgrees(t, hash);
    SameHashExactly(t.chains[n - t.offset], hash);
  }

  lemma FilterAgrees(t: GnuTable, h: bv32)
    requires GnuSafe(t)
    ensures InFilter(t, h) <==> BloomMayHold(t, h)
  {
  }

  method FindGnuSymbol(t: GnuTable, name: seq<bv8>) returns (r: Lookup)
    requires GnuSafe(t)
    ensures Names(t.symbols, name, t.offset, r)
    ensures GnuWellFormed(t) ==> Answers(t.symbols, LinearSearch(t.symbols, name, t.offset), r)
  {
    ghost var best := if GnuWellFormed(t) then LinearSearch(t.symbols, name, t.offset) else NoIndex;
    if best.Index? {
      WalkLeadsTo(t, GnuHashOf(name), best.n);
    }
    r := FilterAndWalk(t, name, best);
  }

  /** The lookup; `best` is the first matching symbol, if it is known to be entered in the table. */
  method FilterAndWalk(t: GnuTable, name: seq<bv8>, ghost best: Index) returns (r: Lookup)
    requires GnuSafe(t)
    requires best.Index? ==>
               && t.offset <= best.n < |t.symbols.all| && LedTo(t, GnuHashOf(name), best.n)
               && Matches(t.symbols, name, best.n)
               && forall n: nat | t.offset <= n < best.n :: !Matches(t.symbols, name, n)
    ensures Names(t.symbols, name, t.offset, r)
    ensures best.Index? ==> Answers(t.symbols, best, r)
  {
    var hash := GnuHash(name);
    if !BloomMayHold(t, hash) {
      return Null;
    }
    var n := t.buckets[BucketOf(hash, |t.buckets|)];
    if n == 0 {
      return Null;
    }
    r := WalkChain(t, name, hash, n, best);
  }

  /** The walk proper; `best` is a symbol it is known to lead to, if there is one. */
  method WalkChain(t: GnuTable, name: seq<bv8>, hash: bv32, first: nat, ghost best: Index) returns (r: Lookup)
    requires GnuSafe(t) && t.offset <= first < |t.symbols.all|
    requires best.Index? ==>
               && first <= best.n && Matches(t.symbols, name, best.n) && SameHash(t.chains[best.n - t.offset], hash)
               && (forall n: nat | first <= n < best.n :: !Matches(t.symbols, name, n))
               && (forall m | first - t.offset <= m < best.n - t.offset :: !ChainEnds(t.chains[m]))
    ensures Names(t.symbols, name, t.offset, r)
    ensures best.Index? ==> Answers(t.symbols, best, r)
  {
    var n := first;
    while true
      invariant first <= n < |t.symbols.all|
      invariant best.Index? ==> n <= best.n
      decreases |t.symbols.all| - n
    {
      if SameHash(t.chains[n - t.offset], hash) && Matches(t.symbols, name, n) {
        return AddressOf(t.symbols, n);
      }
      if ChainEnds(t.chains[n - t.offset]) {
        break;
      }
      n := n + 1;
    }
    return Null;
  }

  // ---------------------------------------------------------------------------------------------- System V table

  /** Chain links stay inside the table. */
  predicate SysvSafe(t: SysvTable) {
    && SymbolsSafe(t.symbols) && |t.chains| == |t.symbols.all| && t.buckets != []
    && (forall b | 0 <= b < |t.buckets| :: t.buckets[b] == 0 || t.buckets[b] < |t.chains|)
    && (forall n | 0 <= n < |t.chains| :: t.chains[n] == 0 || t.chains[n] < |t.chains|)
  }

  /** No chain has a cycle: every link leads to a smaller rank. */
  predicate Ranked(t: SysvTable, rank: seq<nat>)
    requires SysvSafe(t)
  {
    |rank| == |t.chains| && forall n | 0 <= n < |t.chains| && t.chains[n] != 0 :: rank[t.chains[n]] < rank[n]
  }

  predicate OnChain(t: SysvTable, rank: seq<nat>, from: nat, n: nat)
    requires SysvSafe(t) && Ranked(t, rank) && (from == 0 || from < |t.chains|)
    decreases if from == 0 then 0 else rank[from] + 1
  {
    from != 0 && (from == n || OnChain(t, rank, t.chains[from], n))
  }

  ghost predicate Acyclic(t: SysvTable)
    requires SysvSafe(t)
  {
    exists rank :: Ranked(t, rank)
  }

  /** Every defined symbol is on the chain of its bucket. */
  ghost predicate Chained(t: SysvTable, rank: seq<nat>)
    requires SysvSafe(t) && Ranked(t, rank)
  {
    forall n | 0 < n < |t.symbols.all| && Defined(t.symbols.all[n]) ::
      OnChain(t, rank, t.buckets[BucketOf(SysvHashOf(Name(t.symbols, n)), |t.buckets|)], n)
  }

  ghost predicate SysvWellFormed(t: SysvTable)
    requires SysvSafe(t)
  {
    exists rank :: Ranked(t, rank) && Chained(t, rank)
  }

  /** No two defined symbols share the name. */
  ghost predicate Unique(s: Symbols, name: seq<bv8>)
    requires SymbolsSafe(s)
  {
    forall m: nat, n: nat | 0 < m && 0 < n && Matches(s, name, m) && Matches(s, name, n) :: m == n
  }

  /** Chains may list symbols in any order, so which of several symbols of one name is found is not promised. */
  method FindSysvSymbol(t: SysvTable, name: seq<bv8>) returns (r: Lookup)
    requires SysvSafe(t) && Acyclic(t)
    ensures Names(t.symbols, name, 1, r)
    ensures SysvWellFormed(t) ==> (r.Null? <==> LinearSearch(t.symbols, name, 1).NoIndex?)
    ensures SysvWellFormed(t) && Unique(t.symbols, name) ==>
              Answers(t.symbols, LinearSearch(t.symbols, name, 1), r)
  {
    ghost var rank :| Ranked(t, rank) && (SysvWellFormed(t) ==> Chained(t, rank));
    var hash := SysvHash(name);
    ghost var best := LinearSearch(t.symbols, name, 1);
    var n: nat := t.buckets[BucketOf(hash, |t.buckets|)];
    while n != 0
      invariant n == 0 || n < |t.chains|
      invariant SysvWellFormed(t) && best.Index? ==> OnChain(t, rank, n, best.n)
      decreases if n == 0 then 0 else rank[n] + 1
    {
      if Matches(t.symbols, name, n) {
        return AddressOf(t.symbols, n);
      }
      n := t.chains[n];
    }
    return Null;
  }
}
