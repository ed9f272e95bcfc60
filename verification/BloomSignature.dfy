/**
 * Bloom signatures: bit arrays of 16-bit words, the bits that a column value sets, and the word-wise test of a scan.
 */
module BloomSignature {
  import opened BloomRandom

  type Word = bv16

  /** SIGNWORDBITS. */
  const WORD_BITS := 16

  /** INDEX_MAX_KEYS. */
  const MAX_COLUMNS := 32

  /** A bit position within a word. */
  type Position = p: bv16 | p < 16

  function At(k: nat): (p: Position)
    requires k < WORD_BITS
    ensures p as int == k
  {
    k as bv16
  }

  /** GETBIT within one word. */
  predicate HasBit(w: Word, p: Position) {
    (w >> p) & 1 == 1
  }

  /** SETBIT within one word. */
  function WithBit(w: Word, p: Position): Word {
    w | ((1 as bv16) << p)
  }

  lemma WithBitExact(w: Word, p: Position, q: Position)
    ensures HasBit(WithBit(w, p), q) <==> q == p || HasBit(w, q)
  {
  }

  /** The scan's test on one word, bit by bit. */
  lemma WordCovers(a: Word, s: Word)
    ensures a & s == s <==> forall k :: 0 <= k < WORD_BITS && HasBit(s, At(k)) ==> HasBit(a, At(k))
  {
    if a & s == s {
      forall k | 0 <= k < WORD_BITS && HasBit(s, At(k))
        ensures HasBit(a, At(k))
      {
        CoveredBit(a, s, At(k));
      }
    } else {
      var p := MissingBit(a, s);
      assert At(p as int) == p;
    }
  }

  lemma CoveredBit(a: Word, s: Word, p: Position)
    requires a & s == s && HasBit(s, p)
    ensures HasBit(a, p)
  {
  }

  lemma MissingBit(a: Word, s: Word) returns (p: Position)
    requires a & s != s
    ensures HasBit(s, p) && !HasBit(a, p)
  {
    p := if s & 1 != 0 && a & 1 == 0 then 0 else if s & 2 != 0 && a & 2 == 0 then 1
         else if s & 4 != 0 && a & 4 == 0 then 2 else if s & 8 != 0 && a & 8 == 0 then 3
         else if s & 16 != 0 && a & 16 == 0 then 4 else if s & 32 != 0 && a & 32 == 0 then 5
         else if s & 64 != 0 && a & 64 == 0 then 6 else if s & 128 != 0 && a & 128 == 0 then 7
         else if s & 256 != 0 && a & 256 == 0 then 8 else if s & 512 != 0 && a & 512 == 0 then 9
         else if s & 1024 != 0 && a & 1024 == 0 then 10 else if s & 2048 != 0 && a & 2048 == 0 then 11
         else if s & 4096 != 0 && a & 4096 == 0 then 12 else if s & 8192 != 0 && a & 8192 == 0 then 13
         else if s & 16384 != 0 && a & 16384 == 0 then 14 else 15;
  }

  /** Whether bit i of a whole signature is set. */
  predicate InSign(sign: seq<Word>, i: nat)
    requires i < WORD_BITS * |sign|
  {
    HasBit(sign[i / WORD_BITS], At(i % WORD_BITS))
  }

  /** The bits of a signature, as a set. */
  function BitsOf(sign: seq<Word>): set<nat> {
    set i: nat | i < WORD_BITS * |sign| && InSign(sign, i)
  }

  /** SETBIT on a signature. */
  method SetBit(sign: array<Word>, i: nat)
    requires i < WORD_BITS * sign.Length
    modifies sign
    ensures BitsOf(sign[..]) == old(BitsOf(sign[..])) + {i}
  {
    ghost var before := sign[..];
    sign[i / WORD_BITS] := WithBit(sign[i / WORD_BITS], At(i % WORD_BITS));
    forall j: nat | j < WORD_BITS * |before|
      ensures InSign(sign[..], j) <==> j == i || InSign(before, j)
    {
      WithBitExact(before[i / WORD_BITS], At(i % WORD_BITS), At(j % WORD_BITS));
    }
  }

  /** The scan's test: every word of the tuple's signature contains the scan's. */
  predicate WordsMatch(tuple: seq<Word>, scan: seq<Word>)
    requires |tuple| == |scan|
  {
    forall i :: 0 <= i < |scan| ==> tuple[i] & scan[i] == scan[i]
  }

  lemma MatchCoversBit(tuple: seq<Word>, scan: seq<Word>, i: nat)
    requires |tuple| == |scan| && WordsMatch(tuple, scan) && i < WORD_BITS * |scan| && InSign(scan, i)
    ensures InSign(tuple, i)
  {
    CoveredBit(tuple[i / WORD_BITS], scan[i / WORD_BITS], At(i % WORD_BITS));
  }

  lemma SubsetCoversWord(tuple: seq<Word>, scan: seq<Word>, w: nat)
    requires |tuple| == |scan| && BitsOf(scan) <= BitsOf(tuple) && w < |scan|
    ensures tuple[w] & scan[w] == scan[w]
  {
    forall k | 0 <= k < WORD_BITS && HasBit(scan[w], At(k))
      ensures HasBit(tuple[w], At(k))
    {
      var i: nat := w * WORD_BITS + k;
      assert i / WORD_BITS == w && i % WORD_BITS == k;
      assert i in BitsOf(scan);
    }
    WordCovers(tuple[w], scan[w]);
  }

  /** Comparing words is comparing bit sets. */
  lemma WordsMatchExact(tuple: seq<Word>, scan: seq<Word>)
    requires |tuple| == |scan|
    ensures WordsMatch(tuple, scan) <==> BitsOf(scan) <= BitsOf(tuple)
  {
    if WordsMatch(tuple, scan) {
      forall i: nat | i in BitsOf(scan)
        ensures i in BitsOf(tuple)
      {
        MatchCoversBit(tuple, scan, i);
      }
    }
    if BitsOf(scan) <= BitsOf(tuple) {
      forall w | 0 <= w < |scan|
        ensures tuple[w] & scan[w] == scan[w]
      {
        SubsetCoversWord(tuple, scan, w);
      }
    }
  }

  /** The inner loop of blgetbitmap, which stops at the first word that does not match. */
  method SignatureMatches(tuple: seq<Word>, scan: seq<Word>) returns (res: bool)
    requires |tuple| == |scan|
    ensures res <==> BitsOf(scan) <= BitsOf(tuple)
  {
    WordsMatchExact(tuple, scan);
    res := true;
    var i := 0;
    while i < |scan|
      invariant 0 <= i <= |scan|
      invariant res && forall k :: 0 <= k < i ==> tuple[k] & scan[k] == scan[k]
    {
      if tuple[i] & scan[i] != scan[i] {
        res := false;
        break;
      }
      i := i + 1;
    }
  }

  /** An indexed column enters the index only through its hash; two equal values have equal hashes. */
  datatype Column = Null | Hashed(hash: uint32)

  /** Index options: signature length in words, bits to set per column. */
  datatype Options = Options(bloomLength: nat, bitSize: seq<nat>)

  predicate ValidOptions(opts: Options) {
    1 <= opts.bloomLength <= 256 && |opts.bitSize| == MAX_COLUMNS
  }

  /** Exclusive or of the bits below a power of two m. */
  function XorBelow(a: nat, b: nat, m: nat): (r: nat)
    requires m >= 1
    ensures r < m
  {
    if m == 1 then 0 else 2 * XorBelow(a / 2, b / 2, m / 2) + (if a % 2 == b % 2 then 0 else 1)
  }

  /** Bit k of a number. */
  predicate Bit(x: nat, k: nat) {
    if k == 0 then x % 2 == 1 else Bit(x / 2, k - 1)
  }

  function PowerOfTwo(n: nat): (r: nat)
    ensures r >= 1
  {
    if n == 0 then 1 else 2 * PowerOfTwo(n - 1)
  }

  lemma XorSplits(a: nat, b: nat, n: nat)
    requires n > 0
    ensures XorBelow(a, b, PowerOfTwo(n)) / 2 == XorBelow(a / 2, b / 2, PowerOfTwo(n - 1))
    ensures XorBelow(a, b, PowerOfTwo(n)) % 2 == 1 <==> a % 2 != b % 2
  {
    assert PowerOfTwo(n) / 2 == PowerOfTwo(n - 1);
  }

  /** A bit of the exclusive or is set just when exactly one of the two numbers has it. */
  lemma {:induction false} XorBits(a: nat, b: nat, n: nat, k: nat)
    requires k < n
    ensures Bit(XorBelow(a, b, PowerOfTwo(n)), k) <==> Bit(a, k) != Bit(b, k)
    decreases n
  {
    XorSplits(a, b, n);
    if k > 0 {
      XorBits(a / 2, b / 2, n - 1, k - 1);
    }
  }

  lemma Words()
    ensures PowerOfTwo(32) == 0x1_0000_0000
  {
    assert PowerOfTwo(8) == 256 && PowerOfTwo(16) == 65536 && PowerOfTwo(24) == 16777216;
  }

  /** C's exclusive or on 32-bit words. */
  function Xor(a: uint32, b: uint32): uint32 {
    XorBelow(a as nat, b as nat, 0x1_0000_0000) as uint32
  }

  /** The number that a column mixes into its hashes: the first draw after seeding with the column number. */
  function ColumnMask(col: nat): uint32
    requires col < MAX_COLUMNS
  {
    FirstDraw(col as uint32);
    (Times16807(Seeded(col as uint32) as int) - 1) as uint32
  }

  function ValueSeed(col: nat, hash: uint32): uint32
    requires col < MAX_COLUMNS
  {
    Xor(hash, ColumnMask(col))
  }

  /** One number is the exclusive or of two others, bit by bit. */
  predicate Mixed(seed: uint32, hash: uint32, mask: uint32) {
    forall k: nat | k < 32 :: MixedAt(seed, hash, mask, k)
  }

  predicate MixedAt(seed: uint32, hash: uint32, mask: uint32, k: nat) {
    Bit(seed as nat, k) <==> Bit(hash as nat, k) != Bit(mask as nat, k)
  }

  lemma XorMixed(hash: uint32, mask: uint32)
    ensures Mixed(Xor(hash, mask), hash, mask)
  {
    Words();
    forall k: nat | k < 32
      ensures MixedAt(Xor(hash, mask), hash, mask, k)
    {
      XorBits(hash as nat, mask as nat, 32, k);
    }
  }

  /** Seeding with the column and drawing once comes down to a multiple of 16807. */
  lemma ColumnMaskIs(col: nat)
    requires col < MAX_COLUMNS
    ensures ColumnMask(col) as int == 16807 * (col + 1) - 1
  {
    SeededIs(col as uint32);
  }

  /** The index that the j-th draw after seeding gives, C's remainder included. */
  function DrawnIndex(seed: uint32, j: nat, bits: nat): int
    requires bits > 0
  {
    TruncMod(After(Seeded(seed) as int, j + 1) - 1, bits)
  }

  lemma TruncModRange(a: int, b: int)
    requires a >= -1 && b > 1
    ensures a >= 0 ==> 0 <= TruncMod(a, b) < b
    ensures a == -1 ==> TruncMod(a, b) == -1
  {
    if a >= 0 {
      assert a == b * (a / b) + a % b;
    }
  }

  /** Every index drawn is a bit of the signature, unless the seed is one of the two stuck ones: then each is -1. */
  lemma DrawsInRange(seed: uint32, j: nat, bits: nat)
    requires bits > 1
    ensures !Stuck(seed) ==> 0 <= DrawnIndex(seed, j, bits) < bits
    ensures Stuck(seed) ==> DrawnIndex(seed, j, bits) == -1
  {
    EveryDraw(seed, j + 1);
    TruncModRange(After(Seeded(seed) as int, j + 1) - 1, bits);
  }

  /** The bits that `count` draws set. A negative index sets none. */
  function SeedBits(seed: uint32, count: nat, bits: nat): set<nat>
    requires bits > 0
  {
    if count == 0 then {}
    else
      var i := DrawnIndex(seed, count - 1, bits);
      SeedBits(seed, count - 1, bits) + if i >= 0 then {i as nat} else {}
  }

  /** Bit i is the j-th one drawn after seeding: powers of 16807 times the first state, modulo 2^31 - 1. */
  predicate DrawnAt(seed: uint32, j: nat, bits: nat, i: int)
    requires bits > 0
  {
    i == ((Power(16807, j + 1) * Seeded(seed) as int) % MODULUS - 1) % bits
  }

  lemma DrawnIndexIs(seed: uint32, j: nat, bits: nat, i: nat)
    requires bits > 1 && !Stuck(seed)
    ensures DrawnIndex(seed, j, bits) == i <==> DrawnAt(seed, j, bits, i)
  {
    EveryDraw(seed, j + 1);
    AfterPower(Seeded(seed) as int, j + 1);
    TruncModIs(After(Seeded(seed) as int, j + 1) - 1, bits);
  }

  lemma TruncModIs(a: int, b: int)
    requires a >= 0 && b > 0
    ensures TruncMod(a, b) == a % b
  {
  }

  /** The bits that a column value sets. */
  function ValueBits(opts: Options, col: nat, hash: uint32): set<nat>
    requires ValidOptions(opts) && col < MAX_COLUMNS
  {
    SeedBits(ValueSeed(col, hash), opts.bitSize[col], opts.bloomLength * WORD_BITS)
  }

  /** Bit i is one of the first `count` that are drawn. */
  ghost predicate Drawn(seed: uint32, count: nat, bits: nat, i: nat)
    requires bits > 0
  {
    exists j: nat :: j < count && DrawnAt(seed, j, bits, i)
  }

  lemma DrawnNext(seed: uint32, count: nat, bits: nat, i: nat)
    requires bits > 0 && count > 0
    ensures Drawn(seed, count, bits, i) <==> Drawn(seed, count - 1, bits, i) || DrawnAt(seed, count - 1, bits, i)
  {
    if Drawn(seed, count - 1, bits, i) {
      var j: nat :| j < count - 1 && DrawnAt(seed, j, bits, i);
    }
  }

  lemma {:induction false} SeedBitsExact(seed: uint32, count: nat, bits: nat, i: nat)
    requires bits > 1
    ensures i in SeedBits(seed, count, bits) <==> !Stuck(seed) && Drawn(seed, count, bits, i)
  {
    if count > 0 {
      SeedBitsExact(seed, count - 1, bits, i);
      DrawnNext(seed, count, bits, i);
      DrawsInRange(seed, count - 1, bits);
      if !Stuck(seed) {
        DrawnIndexIs(seed, count - 1, bits, i);
      }
    }
  }

  /** A way of turning a column number and a hash into bits. */
  type Marks = (nat, uint32) -> set<nat>

  /** The way of signValue. */
  function MarksOf(opts: Options): Marks
    requires ValidOptions(opts)
  {
    (col: nat, hash: uint32) => if col < MAX_COLUMNS then ValueBits(opts, col, hash) else {}
  }

  /** The loop of signValue. */
  method DrawBits(gen: Generator, sign: array<Word>, ghost seed: uint32, count: nat) returns (inRange: bool)
    requires sign.Length > 0 && gen.next == Seeded(seed)
    modifies gen, sign
    ensures BitsOf(sign[..]) == old(BitsOf(sign[..])) + SeedBits(seed, count, sign.Length * WORD_BITS)
    ensures inRange <==> count == 0 || !Stuck(seed)
  {
    var bits := sign.Length * WORD_BITS;
    inRange := true;
    var j := 0;
    while j < count
      invariant 0 <= j <= count
      invariant gen.next as int == After(Seeded(seed) as int, j)
      invariant BitsOf(sign[..]) == old(BitsOf(sign[..])) + SeedBits(seed, j, bits)
      invariant inRange <==> j == 0 || !Stuck(seed)
    {
      var r := gen.Rand();
      var nBit := TruncMod(r as int, bits);
      DrawsInRange(seed, j, bits);
      if nBit >= 0 {
        SetBit(sign, nBit);
      } else {
        inRange := false;
      }
      j := j + 1;
    }
  }

  /** signValue. The bits it adds depend on the column and the hash alone, not on what the generator held before. */
  method SignValue(gen: Generator, opts: Options, sign: array<Word>, hash: uint32, col: nat)
    returns (inRange: bool, ghost seed: uint32)
    requires ValidOptions(opts) && sign.Length == opts.bloomLength && col < MAX_COLUMNS
    modifies gen, sign
    ensures BitsOf(sign[..]) == old(BitsOf(sign[..])) + MarksOf(opts)(col, hash)
    ensures inRange <==> opts.bitSize[col] == 0 || !Stuck(seed)
    ensures Mixed(seed, hash, (16807 * (col + 1) - 1) as uint32)
    ensures BitsOf(sign[..]) == old(BitsOf(sign[..])) + SeedBits(seed, opts.bitSize[col], WORD_BITS * opts.bloomLength)
  {
    gen.Srand(col as uint32);
    var mask := gen.Rand();
    FirstDraw(col as uint32);
    var mixed := Xor(hash, mask as uint32);
    gen.Srand(mixed);
    inRange := DrawBits(gen, sign, mixed, opts.bitSize[col]);
    seed := mixed;
    XorMixed(hash, mask as uint32);
    ColumnMaskIs(col);
  }

  /** The bits of the first n columns of a row; a null column sets none. */
  function RowBits(marks: Marks, row: seq<Column>, n: nat): set<nat>
    requires n <= |row|
  {
    if n == 0 then {}
    else RowBits(marks, row, n - 1) + ColumnBits(marks, n - 1, row[n - 1])
  }

  function ColumnBits(marks: Marks, col: nat, c: Column): set<nat> {
    match c
    case Null => {}
    case Hashed(h) => marks(col, h)
  }

  /** Bit i is one that column k of the row sets. */
  predicate SetByColumn(marks: Marks, row: seq<Column>, k: nat, i: nat) {
    k < |row| && row[k].Hashed? && i in marks(k, row[k].hash)
  }

  /** A row sets exactly the bits of its columns that are not null. */
  lemma {:induction false} RowBitsExact(marks: Marks, row: seq<Column>, n: nat, i: nat)
    requires n <= |row|
    ensures i in RowBits(marks, row, n) <==> exists k: nat :: k < n && SetByColumn(marks, row, k, i)
  {
    if n > 0 {
      RowBitsExact(marks, row, n - 1, i);
      assert i in ColumnBits(marks, n - 1, row[n - 1]) <==> SetByColumn(marks, row, n - 1, i);
    }
  }

  ghost predicate AreRowBits(marks: Marks, row: seq<Column>, bits: set<nat>) {
    forall i: nat :: i in bits <==> exists k: nat :: SetByColumn(marks, row, k, i)
  }

  lemma RowBitsAre(marks: Marks, row: seq<Column>)
    ensures AreRowBits(marks, row, RowBits(marks, row, |row|))
  {
    forall i: nat
      ensures i in RowBits(marks, row, |row|) <==> exists k: nat :: SetByColumn(marks, row, k, i)
    {
      RowBitsExact(marks, row, |row|, i);
    }
  }

  lemma EmptySignature(sign: seq<Word>)
    requires forall i :: 0 <= i < |sign| ==> sign[i] == 0
    ensures BitsOf(sign) == {}
  {
    forall i: nat | i < WORD_BITS * |sign|
      ensures !InSign(sign, i)
    {
      ZeroWord(At(i % WORD_BITS));
    }
  }

  lemma ZeroWord(p: Position)
    ensures !HasBit(0, p)
  {
  }

  /** BloomFormTuple: the signature of a row. */
  method FormSignature(gen: Generator, opts: Options, row: seq<Column>) returns (sign: array<Word>)
    requires ValidOptions(opts) && |row| <= MAX_COLUMNS
    modifies gen
    ensures fresh(sign) && sign.Length == opts.bloomLength
    ensures BitsOf(sign[..]) == RowBits(MarksOf(opts), row, |row|)
    ensures AreRowBits(MarksOf(opts), row, BitsOf(sign[..]))
  {
    sign := new Word[opts.bloomLength](_ => 0);
    EmptySignature(sign[..]);
    var i := 0;
    while i < |row|
      invariant 0 <= i <= |row|
      invariant BitsOf(sign[..]) == RowBits(MarksOf(opts), row, i)
    {
      if row[i].Hashed? {
        var inRange, seed := SignValue(gen, opts, sign, row[i].hash, i);
      }
      i := i + 1;
    }
    RowBitsAre(MarksOf(opts), row);
  }

  /** An equality condition of a scan: a zero-based column and the value compared with. */
  datatype ScanKey = ScanKey(col: nat, value: Column)

  predicate ValidKeys(keys: seq<ScanKey>) {
    forall i :: 0 <= i < |keys| ==> keys[i].col < MAX_COLUMNS
  }

  function KeyBits(marks: Marks, keys: seq<ScanKey>, n: nat): set<nat>
    requires n <= |keys|
  {
    if n == 0 then {}
    else KeyBits(marks, keys, n - 1) + ColumnBits(marks, keys[n - 1].col, keys[n - 1].value)
  }

  /** Bit i is one that key k sets. */
  predicate SetByKey(marks: Marks, keys: seq<ScanKey>, k: nat, i: nat) {
    k < |keys| && keys[k].value.Hashed? && i in marks(keys[k].col, keys[k].value.hash)
  }

  /** A scan looks for exactly the bits of its keys that are not null. */
  lemma {:induction false} KeyBitsExact(marks: Marks, keys: seq<ScanKey>, n: nat, i: nat)
    requires n <= |keys|
    ensures i in KeyBits(marks, keys, n) <==> exists k: nat :: k < n && SetByKey(marks, keys, k, i)
  {
    if n > 0 {
      KeyBitsExact(marks, keys, n - 1, i);
      assert i in ColumnBits(marks, keys[n - 1].col, keys[n - 1].value) <==> SetByKey(marks, keys, n - 1, i);
    }
  }

  ghost predicate AreKeyBits(marks: Marks, keys: seq<ScanKey>, bits: set<nat>) {
    forall i: nat :: i in bits <==> exists k: nat :: SetByKey(marks, keys, k, i)
  }

  lemma KeyBitsAre(marks: Marks, keys: seq<ScanKey>)
    ensures AreKeyBits(marks, keys, KeyBits(marks, keys, |keys|))
  {
    forall i: nat
      ensures i in KeyBits(marks, keys, |keys|) <==> exists k: nat :: SetByKey(marks, keys, k, i)
    {
      KeyBitsExact(marks, keys, |keys|, i);
    }
  }

  /** A set holds the bits of the keys just when it holds those of each key. */
  lemma KeyBitsBelow(marks: Marks, keys: seq<ScanKey>, bits: set<nat>)
    requires forall k :: 0 <= k < |keys| ==> keys[k].value.Hashed?
    ensures KeyBits(marks, keys, |keys|) <= bits
      <==> forall k :: 0 <= k < |keys| ==> marks(keys[k].col, keys[k].value.hash) <= bits
  {
    KeyBitsAre(marks, keys);
    if KeyBits(marks, keys, |keys|) <= bits {
      forall k | 0 <= k < |keys|
        ensures marks(keys[k].col, keys[k].value.hash) <= bits
      {
        forall i: nat | i in marks(keys[k].col, keys[k].value.hash)
          ensures i in bits
        {
          assert SetByKey(marks, keys, k, i);
        }
      }
    }
  }

  /** One key of the scan signature. */
  method SignKey(gen: Generator, opts: Options, sign: array<Word>, keys: seq<ScanKey>, i: nat)
    requires ValidOptions(opts) && ValidKeys(keys) && sign.Length == opts.bloomLength
    requires i < |keys| && keys[i].value.Hashed? && BitsOf(sign[..]) == KeyBits(MarksOf(opts), keys, i)
    modifies gen, sign
    ensures BitsOf(sign[..]) == KeyBits(MarksOf(opts), keys, i + 1)
  {
    var inRange, seed := SignValue(gen, opts, sign, keys[i].value.hash, keys[i].col);
  }

  /** The scan signature, computed at the start of blgetbitmap; a null key means that nothing can be found. */
  method ScanSignature(gen: Generator, opts: Options, keys: seq<ScanKey>) returns (found: bool, sign: array<Word>)
    requires ValidOptions(opts) && ValidKeys(keys)
    modifies gen
    ensures fresh(sign) && sign.Length == opts.bloomLength
    ensures found <==> forall i :: 0 <= i < |keys| ==> keys[i].value.Hashed?
    ensures found ==> BitsOf(sign[..]) == KeyBits(MarksOf(opts), keys, |keys|)
    ensures found ==> AreKeyBits(MarksOf(opts), keys, BitsOf(sign[..]))
  {
    sign := new Word[opts.bloomLength](_ => 0);
    EmptySignature(sign[..]);
    var i := 0;
    while i < |keys|
      invariant 0 <= i <= |keys|
      invariant forall k :: 0 <= k < i ==> keys[k].value.Hashed?
      invariant BitsOf(sign[..]) == KeyBits(MarksOf(opts), keys, i)
    {
      if keys[i].value.Null? {
        return false, sign;
      }
      SignKey(gen, opts, sign, keys, i);
      i := i + 1;
    }
    found := true;
    KeyBitsAre(MarksOf(opts), keys);
  }

  /** A row answers a scan when each key's column is not null and equal to the key. */
  predicate Answers(row: seq<Column>, keys: seq<ScanKey>) {
    forall i :: 0 <= i < |keys| ==> keys[i].col < |row| && row[keys[i].col] == keys[i].value && keys[i].value.Hashed?
  }

  lemma {:induction false} ColumnInRow(marks: Marks, row: seq<Column>, col: nat, n: nat)
    requires col < n <= |row|
    ensures ColumnBits(marks, col, row[col]) <= RowBits(marks, row, n)
  {
    if col < n - 1 {
      ColumnInRow(marks, row, col, n - 1);
    }
  }

  /** A row that answers the scan has every bit of the scan signature. */
  lemma {:induction false} AnsweringRowMatches(marks: Marks, row: seq<Column>, keys: seq<ScanKey>, n: nat)
    requires Answers(row, keys) && n <= |keys|
    ensures KeyBits(marks, keys, n) <= RowBits(marks, row, |row|)
  {
    if n > 0 {
      AnsweringRowMatches(marks, row, keys, n - 1);
      ColumnInRow(marks, row, keys[n - 1].col, |row|);
    }
  }
}
