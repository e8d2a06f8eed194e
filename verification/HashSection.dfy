/** Where the loader finds the parts of a GNU hash section, in words of 32 bits from its start. */
module HashSection {
  import opened Loader

  type Word = x: nat | x < 0x1_0000_0000

  const HEADER: nat := 4

  /** A section as a linker makes it; a word of the bloom filter has 64 bits, low half first. */
  datatype GnuSection = GnuSection(
    offset: Word,
    shift2: Word,
    bloom: seq<(Word, Word)>,
    buckets: seq<Word>,
    chains: seq<Word>)

  predicate Fits(s: GnuSection) {
    |s.bloom| < 0x1_0000_0000 && |s.buckets| < 0x1_0000_0000
  }

  function Halves(bloom: seq<(Word, Word)>): (ws: seq<Word>)
    ensures |ws| == 2 * |bloom|
    ensures forall k | 0 <= k < |bloom| :: (ws[2 * k], ws[2 * k + 1]) == bloom[k]
  {
    if bloom == [] then [] else Halves(bloom[..|bloom| - 1]) + [bloom[|bloom| - 1].0, bloom[|bloom| - 1].1]
  }

  function Header(s: GnuSection): seq<Word>
    requires Fits(s)
  {
    [|s.buckets|, s.offset, |s.bloom|, s.shift2]
  }

  function Layout(s: GnuSection): seq<Word>
    requires Fits(s)
  {
    Header(s) + Halves(s.bloom) + s.buckets + s.chains
  }

  /** The loader's fields. Chains are indexed by symbol, so their base may lie before the section. */
  datatype Fields = Fields(
    nbucket: nat,
    maskwords: Word,
    shift2: Word,
    bloomAt: nat,
    bucketAt: nat,
    chainAt: int)

  ghost predicate FindsBloom(words: seq<Word>, at: nat, bloom: seq<(Word, Word)>) {
    forall k | 0 <= k < |bloom| :: at + 2 * k + 1 < |words| && (words[at + 2 * k], words[at + 2 * k + 1]) == bloom[k]
  }

  /** Elements of the table are found from `at` on, the first one at the index `first`. */
  ghost predicate FindsTable(words: seq<Word>, at: int, first: nat, table: seq<Word>) {
    forall i | 0 <= i < |table| :: 0 <= at + (first + i) < |words| && words[at + (first + i)] == table[i]
  }

  /** The fields lead to every part of the section. */
  ghost predicate Finds(words: seq<Word>, f: Fields, s: GnuSection) {
    && f.nbucket == |s.buckets| && f.shift2 == s.shift2
    && FindsBloom(words, f.bloomAt, s.bloom)
    && FindsTable(words, f.bucketAt, 0, s.buckets)
    && FindsTable(words, f.chainAt, s.offset, s.chains)
  }

  /** The macro powerof2, which holds of zero too. */
  predicate PassesCheck(count: nat) {
    count == 0 || PowerOf2(count)
  }

  /** One less, on words that wrap. */
  function Mask(count: nat): Word
    requires count <= 0xffff_ffff
  {
    if count == 0 then 0xffff_ffff else count - 1
  }

  /**
   Reading back what a linker has laid out, with anything after it, finds all of it. The check on the number of
   filter words lets zero through; so the largest masked word number is inside the filter if and only if the filter
   is not empty.
   */
  method ReadGnuHash(words: seq<Word>, ghost s: GnuSection) returns (f: Fields, ok: bool)
    requires Fits(s) && Layout(s) <= words
    ensures Finds(words, f, s)
    ensures ok <==> PassesCheck(|s.bloom|)
    ensures ok ==> f.maskwords == Mask(|s.bloom|) && (f.maskwords < |s.bloom| <==> s.bloom != [])
  {
    HeaderFirst(s, words);
    var nbucket: nat, maskwords: nat, shift2 := words[0], words[2], words[3];
    var bucketAt: nat := HEADER + 2 * maskwords;
    f := Fields(nbucket, maskwords, shift2, HEADER, bucketAt, bucketAt + nbucket - words[1]);
    ok := PassesCheck(maskwords);
    if ok {
      f := f.(maskwords := Mask(maskwords));
    }
    FindsAll(words, f, s);
  }

  lemma HeaderFirst(s: GnuSection, words: seq<Word>)
    requires Fits(s) && Layout(s) <= words
    ensures HEADER <= |words| && words[..HEADER] == Header(s)
    ensures words[0] == |s.buckets| && words[1] == s.offset && words[2] == |s.bloom| && words[3] == s.shift2
  {
    assert Layout(s)[..HEADER] == Header(s);
    assert forall i | 0 <= i < HEADER :: words[i] == Layout(s)[i] == Header(s)[i];
  }

  lemma FindsAll(words: seq<Word>, f: Fields, s: GnuSection)
    requires Fits(s) && Layout(s) <= words && f.nbucket == |s.buckets| && f.shift2 == s.shift2
    requires f.bloomAt == HEADER && f.bucketAt == HEADER + 2 * |s.bloom|
    requires f.chainAt == f.bucketAt + |s.buckets| - s.offset
    ensures Finds(words, f, s)
  {
    var head, bloom := Header(s), Halves(s.bloom);
    var tail := words[|Layout(s)|..];
    assert words == head + bloom + s.buckets + s.chains + tail;
    Joined(head + bloom, s.buckets, s.chains, tail);
    BloomFound(words, head, s.bloom, s.buckets + s.chains + tail);
    TableFound(words, head + bloom, s.buckets, s.chains + tail, f.bucketAt, 0);
    TableFound(words, head + bloom + s.buckets, s.chains, tail, f.chainAt, s.offset);
  }

  lemma Joined(a: seq<Word>, b: seq<Word>, c: seq<Word>, d: seq<Word>)
    ensures a + b + c + d == a + (b + c + d) == a + b + (c + d)
  {
  }

  lemma BloomFound(words: seq<Word>, before: seq<Word>, bloom: seq<(Word, Word)>, after: seq<Word>)
    requires words == before + Halves(bloom) + after
    ensures FindsBloom(words, |before|, bloom)
  {
  }

  lemma TableFound(words: seq<Word>, before: seq<Word>, table: seq<Word>, after: seq<Word>, at: int, first: nat)
    requires words == before + table + after && at + first == |before|
    ensures FindsTable(words, at, first, table)
  {
  }
}
