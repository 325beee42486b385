/**
 The data patterns: a buffer is generated once, updated before every write, and
 verified after a read.

 A buffer is its 64-bit words and the bytes behind the last whole word. Words
 are numbers below 2^64; the multiplications and the reductions to 32 bits are
 those of the C types. `rand` is one step of the C library's reentrant
 generator: the number it returns and the seed it leaves.
 */
module Patterns {
  import opened Arithmetic
  import opened Lfsr

  const U32 := 0x1_0000_0000
  const U64 := 0x1_0000_0000_0000_0000
  const GOLDEN_RATIO_PRIME := 0x9e37_ffff_fffc_0001

  type Word = w: nat | w < U64
  type Word32 = w: nat | w < U32
  type Byte = b: nat | b < 256

  datatype Packet = Timestamp | Incompressible | Offset | Random

  /** What a buffer is generated and verified for; the seed is a C int, the rank a non-negative one. */
  datatype Source = Source(packet: Packet, seed: int, rank: nat, rand: Word32 -> (Word32, Word32))

  predicate SourceOk(src: Source) {
    -0x8000_0000 <= src.seed < 0x8000_0000 && src.rank < 0x8000_0000
  }

  /** The conversion of any number to an unsigned type. */
  function ToWord(x: int): Word { x % U64 }
  function ToWord32(x: int): Word32 { x % U32 }

  /** The bitwise or of the lowest `n` bits. */
  function OrBits(a: nat, b: nat, n: nat): (r: nat)
    ensures r < Pow2(n)
  {
    if n == 0 then 0
    else (if a % 2 == 1 || b % 2 == 1 then 1 else 0) + 2 * OrBits(a / 2, b / 2, n - 1)
  }

  lemma {:induction false} Pow2Sum(m: nat, n: nat)
    ensures Pow2(m + n) == Pow2(m) * Pow2(n)
  {
    if m > 0 {
      Pow2Sum(m - 1, n);
      TwiceTimes(Pow2(m - 1), Pow2(n));
    }
  }

  lemma TwiceTimes(a: nat, b: nat)
    ensures 2 * (a * b) == 2 * a * b
  {
  }

  lemma WordSize()
    ensures Pow2(32) == U32 && Pow2(64) == U64
  {
    assert Pow2(4) == 16 && Pow2(0) == 1;
    Pow2Sum(4, 4);
    Pow2Sum(8, 8);
    Pow2Sum(16, 16);
    Pow2Sum(32, 32);
  }

  /** The bitwise or of two words. */
  function Or(a: Word, b: Word): Word {
    WordSize();
    OrBits(a, b, 64)
  }

  // ---------------------------------------------------------- expected words

  /** The word that is changed in every block of 512 words: the item times the block's number, and the rank. */
  function Mark(src: Source, item: nat, k: nat): Word
    requires SourceOk(src)
  {
    ToWord32(ToWord32(item) * k) + src.rank * U32
  }

  /** All other words; they do not depend on the item. */
  function Fill(src: Source, i: nat): Word
    requires SourceOk(src)
  {
    match src.packet
    case Timestamp => Or(ToWord(src.rank * U32), ToWord(ToWord(src.seed) + i))
    case Offset => Or(ToWord(src.rank * U32), ToWord(ToWord(src.seed) + i))
    case Incompressible =>
      var (hi, next) := src.rand(ToWord32(src.seed + src.rank));
      var (lo, _) := src.rand(next);
      hi * U32 + lo
    case Random => 0
  }

  /** The generator state of the random packet after `n` words. */
  function RandomState(src: Source, item: nat, n: nat): Word
    requires SourceOk(src)
  {
    if n == 0 then src.rand(ToWord32(src.seed + src.rank + item)).0
    else ToWord(RandomState(src, item, n - 1) * GOLDEN_RATIO_PRIME) / 8
  }

  /** The word at `i` after the buffer was updated for `item`. */
  function Expected(src: Source, item: nat, i: nat): Word
    requires SourceOk(src)
  {
    if src.packet.Random? then RandomState(src, item, i + 1)
    else if i % 512 == 0 && !src.packet.Timestamp? then Mark(src, item, i / 512 + 1)
    else Fill(src, i)
  }

  /** The low byte of an index, which is what the bytes behind the last word hold. */
  function TailByte(i: nat): Byte { i % 256 }

  // ------------------------------------------------------------- the buffer

  class Buffer {
    const bytes: nat
    const words: array<Word>
    const tail: array<Byte>

    ghost predicate Shape() {
      words.Length == bytes / 8 && tail.Length == bytes % 8
    }

    /** The words are those of `item`, and the tail is intact. */
    ghost predicate Holds(src: Source, item: nat)
      requires SourceOk(src) && Shape()
      reads words, tail
    {
      && (forall i :: 0 <= i < words.Length ==> words[i] == Expected(src, item, i))
      && TailIntact()
    }

    ghost predicate TailIntact()
      requires Shape()
      reads tail
    {
      forall i :: 0 <= i < tail.Length ==> tail[i] == TailByte(bytes / 8 * 8 + i)
    }

    /** Everything is in place except what every update writes. */
    ghost predicate Generated(src: Source)
      requires SourceOk(src) && Shape()
      reads words, tail
    {
      && (!src.packet.Random? ==>
            forall i :: 0 <= i < words.Length && (i % 512 != 0 || src.packet.Timestamp?) ==> words[i] == Fill(src, i))
      && TailIntact()
    }

    constructor (bytes: nat)
      ensures Shape() && this.bytes == bytes && fresh(words) && fresh(tail)
    {
      this.bytes := bytes;
      words := new Word[bytes / 8];
      tail := new Byte[bytes % 8];
    }

    /** Fills the buffer; done once, before any write. */
    method Generate(src: Source)
      requires SourceOk(src) && Shape()
      modifies words, tail
      ensures Generated(src)
      ensures src.packet.Timestamp? ==> forall item :: Holds(src, item)
    {
      for i := 0 to words.Length
        invariant !src.packet.Random? ==> forall k :: 0 <= k < i ==> words[k] == Fill(src, k)
      {
        if !src.packet.Random? {
          words[i] := Fill(src, i);
        }
      }
      for i := 0 to tail.Length
        invariant !src.packet.Random? ==> forall k :: 0 <= k < words.Length ==> words[k] == Fill(src, k)
        invariant forall k :: 0 <= k < i ==> tail[k] == TailByte(bytes / 8 * 8 + k)
      {
        tail[i] := TailByte(bytes / 8 * 8 + i);
      }
    }

    /** Changes the buffer for the next item; what an earlier update has left does not matter. */
    method Update(src: Source, item: nat)
      requires SourceOk(src) && Shape() && Generated(src)
      modifies words
      ensures Generated(src) && Holds(src, item)
    {
      if src.packet.Timestamp? || bytes < 8 {
        return;
      }
      if src.packet.Random? {
        UpdateRandom(src, item);
      } else {
        UpdateMarks(src, item);
      }
    }

    method UpdateRandom(src: Source, item: nat)
      requires SourceOk(src) && Shape() && src.packet.Random?
      modifies words
      ensures forall i :: 0 <= i < words.Length ==> words[i] == RandomState(src, item, i + 1)
    {
      var state := src.rand(ToWord32(src.seed + src.rank + item)).0;
      for i := 0 to words.Length
        invariant state == RandomState(src, item, i)
        invariant forall k :: 0 <= k < i ==> words[k] == RandomState(src, item, k + 1)
      {
        state := ToWord(state * GOLDEN_RATIO_PRIME);
        state := state / 8;
        words[i] := state;
      }
    }

    method UpdateMarks(src: Source, item: nat)
      requires SourceOk(src) && Shape()
      modifies words
      ensures forall i :: 0 <= i < words.Length ==>
                words[i] == if i % 512 == 0 then Mark(src, item, i / 512 + 1) else old(words[i])
    {
      hide Mark;
      var k, i := 1, 0;
      while i < words.Length
        invariant i == (k - 1) * 512
        invariant forall x :: 0 <= x < words.Length ==>
                    words[x] == if x % 512 == 0 && x < i then Mark(src, item, x / 512 + 1) else old(words[x])
        decreases words.Length - i
      {
        words[i] := Mark(src, item, k);
        i := i + 512;
        k := k + 1;
      }
    }

    /** Compares the buffer with what it should hold; 0 if it does. */
    method Verify(src: Source, item: nat) returns (error: int)
      requires SourceOk(src) && Shape()
      ensures error == 0 || error == 1
      ensures error == 0 <==> Holds(src, item)
    {
      hide Fill, Mark, Or;
      error := 0;
      var k := 1;
      var state := src.rand(ToWord32(src.seed + src.rank + item)).0;
      for i := 0 to words.Length
        invariant k == 1 + if src.packet.Random? || src.packet.Timestamp? then 0 else (i + 511) / 512
        invariant src.packet.Random? ==> state == RandomState(src, item, i)
        invariant error == 0 || error == 1
        invariant error == 0 <==> forall x :: 0 <= x < i ==> words[x] == Expected(src, item, x)
      {
        var exp: Word;
        if src.packet.Random? {
          state := ToWord(state * GOLDEN_RATIO_PRIME);
          state := state / 8;
          exp := state;
        } else {
          exp := Fill(src, i);
        }
        if i % 512 == 0 && !src.packet.Timestamp? && !src.packet.Random? {
          exp := Mark(src, item, k);
          k := k + 1;
        }
        if words[i] != exp {
          error := 1;
        }
      }
      for i := 0 to tail.Length
        invariant error == 0 || error == 1
        invariant error == 0 <==> (forall x :: 0 <= x < words.Length ==> words[x] == Expected(src, item, x))
                                  && forall x :: 0 <= x < i ==> tail[x] == TailByte(bytes / 8 * 8 + x)
      {
        if tail[i] != TailByte(bytes / 8 * 8 + i) {
          error := 1;
        }
      }
    }

    /** Spoils the first byte, so that a read that does not happen is noticed. */
    method Invalidate()
      requires Shape() && bytes > 0
      modifies words, tail
      ensures words.Length > 0 ==> words[0] == Spoiled(old(words[0]))
      ensures words.Length == 0 ==> tail[0] == 255 - old(tail[0])
      ensures forall i :: 0 < i < words.Length ==> words[i] == old(words[i])
      ensures forall i :: 0 <= i < tail.Length && (i > 0 || words.Length > 0) ==> tail[i] == old(tail[i])
      ensures forall src, item :: SourceOk(src) && old(Holds(src, item)) ==> !Holds(src, item)
    {
      if words.Length > 0 {
        words[0] := Spoiled(words[0]);
      } else {
        tail[0] := 255 - tail[0];
      }
    }

    /**
     A whole run on one buffer: generated once, then updated and verified for one
     item after the other. Every verification succeeds, and at the end the buffer
     holds the last item.
     */
    method Run(src: Source, items: seq<nat>) returns (errors: int)
      requires SourceOk(src) && Shape()
      modifies words, tail
      ensures errors == 0
      ensures items != [] ==> Holds(src, items[|items| - 1])
    {
      Generate(src);
      errors := 0;
      for n := 0 to |items|
        invariant Generated(src) && errors == 0
        invariant n > 0 ==> Holds(src, items[n - 1])
      {
        Update(src, items[n]);
        var e := Verify(src, items[n]);
        errors := errors + e;
      }
    }
  }

  /** A word with the bits of its first byte inverted, on a little-endian machine. */
  function Spoiled(w: Word): Word {
    w - w % 256 + (255 - w % 256)
  }

  /** All words of two patterns are the same. */
  ghost predicate SameWords(src: Source, item: nat, src': Source, item': nat, size: nat)
    requires SourceOk(src) && SourceOk(src')
  {
    forall i :: 0 <= i < size ==> Expected(src, item, i) == Expected(src', item', i)
  }

  /**
   What a verification can tell apart: with the offset and the incompressible
   packet a buffer of at least one word is accepted for another item or rank if
   and only if the rank is the same and the items agree modulo 2^32.
   */
  lemma PatternsAgreeIff(src: Source, item: nat, rank': nat, item': nat, size: nat)
    requires SourceOk(src) && SourceOk(src.(rank := rank')) && size > 0
    requires src.packet.Offset? || src.packet.Incompressible?
    ensures SameWords(src, item, src.(rank := rank'), item', size) <==> rank' == src.rank && item' % U32 == item % U32
  {
    var src' := src.(rank := rank');
    MarkIsInjective(src, item, src', item');
    if rank' == src.rank && item' % U32 == item % U32 {
      assert ToWord32(item) == ToWord32(item');
    }
    if SameWords(src, item, src', item', size) {
      assert Expected(src, item, 0) == Expected(src', item', 0);
    }
  }

  lemma MarkIsInjective(src: Source, item: nat, src': Source, item': nat)
    requires SourceOk(src) && SourceOk(src')
    ensures Mark(src, item, 1) == Mark(src', item', 1) <==> src.rank == src'.rank && item % U32 == item' % U32
  {
    DivModUnique(Mark(src, item, 1), U32, src.rank, item % U32);
    DivModUnique(Mark(src', item', 1), U32, src'.rank, item' % U32);
  }

  /** Verifying a buffer that holds one item as another item, or as written by another rank. */
  lemma HoldsForOtherIff(buffer: Buffer, src: Source, item: nat, rank': nat, item': nat)
    requires SourceOk(src) && SourceOk(src.(rank := rank')) && buffer.Shape() && buffer.bytes >= 8
    requires src.packet.Offset? || src.packet.Incompressible?
    requires buffer.Holds(src, item)
    ensures buffer.Holds(src.(rank := rank'), item') <==> rank' == src.rank && item' % U32 == item % U32
  {
    PatternsAgreeIff(src, item, rank', item', buffer.words.Length);
    hide Mark, Fill, Expected;
    forall i | 0 <= i < buffer.words.Length ensures buffer.words[i] == Expected(src, item, i) {
    }
  }

  // ----------------------------------------------- what the other words tell apart

  lemma {:induction false} OrWithZero(a: nat, n: nat)
    requires a < Pow2(n)
    ensures OrBits(a, 0, n) == a
  {
    if n > 0 {
      OrWithZero(a / 2, n - 1);
    }
  }

  lemma {:induction false} OrWithOnes(a: nat, n: nat)
    requires a < Pow2(n)
    ensures OrBits(a, Pow2(n) - 1, n) == Pow2(n) - 1
  {
    if n > 0 {
      OrWithOnes(a / 2, n - 1);
      assert (Pow2(n) - 1) / 2 == Pow2(n - 1) - 1 && (Pow2(n) - 1) % 2 == 1;
    }
  }

  /** The lowest `k` bits come from one word, the others from the upper parts. */
  lemma {:induction false} OrAbove(a: nat, b: nat, low: nat, n: nat, k: nat)
    requires low < Pow2(k)
    ensures OrBits(a * Pow2(k), b * Pow2(k) + low, n + k) == OrBits(a, b, n) * Pow2(k) + low
  {
    if k == 0 {
      assert Pow2(0) == 1 && a * 1 == a && b * 1 == b;
    } else {
      var p := Pow2(k - 1);
      DoubleTimes(a, p);
      DoubleTimes(b, p);
      DoubleTimes(OrBits(a, b, n), p);
      OrStep(a * p, b * p + low / 2, low % 2, n + k);
      OrAbove(a, b, low / 2, n, k - 1);
    }
  }

  lemma DoubleTimes(a: nat, p: nat)
    ensures 0 <= a * p && a * (2 * p) == 2 * (a * p)
  {
  }

  lemma OrStep(a: nat, b: nat, low: nat, n: nat)
    requires n > 0 && low < 2
    ensures OrBits(2 * a, 2 * b + low, n) == low + 2 * OrBits(a, b, n - 1)
  {
    assert (2 * a) % 2 == 0 && (2 * a) / 2 == a && (2 * b + low) / 2 == b && (2 * b + low) % 2 == low;
  }

  /** A timestamp or offset word: the rank above, the seed and the index below; with a negative sum only the sum. */
  lemma PlainFill(src: Source, i: nat)
    requires SourceOk(src) && (src.packet.Timestamp? || src.packet.Offset?) && src.seed + i < U32
    ensures Fill(src, i) == if src.seed + i >= 0 then src.rank * U32 + (src.seed + i) else U64 + (src.seed + i)
  {
    hide OrBits, Pow2;
    WordSize();
    ModOfShift(src.seed + i, U64, src.seed / U64);
    var sum := src.seed + i;
    var word := if sum >= 0 then sum else U64 + sum;
    SumAsWord(src.seed, i);
    DivModUnique(src.rank * U32, U64, 0, src.rank * U32);
    if sum >= 0 {
      OrAbove(src.rank, 0, sum, 32, 32);
      OrWithZero(src.rank, 32);
    } else {
      OrAbove(src.rank, U32 - 1, U32 + sum, 32, 32);
      OrWithOnes(src.rank, 32);
    }
  }

  lemma SumAsWord(seed: int, i: nat)
    requires -0x8000_0000 <= seed < 0x8000_0000 && seed + i < U32
    ensures ToWord(ToWord(seed) + i) == if seed + i >= 0 then seed + i else U64 + (seed + i)
  {
    if seed >= 0 {
      DivModUnique(seed, U64, 0, seed);
      DivModUnique(seed + i, U64, 0, seed + i);
    } else {
      DivModUnique(seed, U64, -1, U64 + seed);
      if seed + i >= 0 {
        DivModUnique(U64 + seed + i, U64, 1, seed + i);
      } else {
        DivModUnique(U64 + seed + i, U64, 0, U64 + seed + i);
      }
    }
  }

  /** Two timestamp or offset words with seeds that are not negative tell apart the ranks and the places. */
  lemma FillTellsApart(src: Source, i: nat, src': Source, i': nat)
    requires SourceOk(src) && (src.packet.Timestamp? || src.packet.Offset?)
    requires SourceOk(src') && (src'.packet.Timestamp? || src'.packet.Offset?)
    requires 0 <= src.seed && src.seed + i < U32 && 0 <= src'.seed && src'.seed + i' < U32
    ensures Fill(src, i) == Fill(src', i') <==> src.rank == src'.rank && src.seed + i == src'.seed + i'
  {
    hide Fill;
    PlainFill(src, i);
    PlainFill(src', i');
    DivModUnique(Fill(src, i), U32, src.rank, src.seed + i);
    DivModUnique(Fill(src', i'), U32, src'.rank, src'.seed + i');
  }

  /**
   A timestamp buffer of at least one word that verifies for one rank and seed, the
   seed not being negative, verifies for another if and only if both are the same.
   */
  lemma TimestampHoldsIff(buffer: Buffer, src: Source, item: nat, rank': nat, seed': int, item': nat)
    requires SourceOk(src) && SourceOk(src.(rank := rank', seed := seed')) && src.packet.Timestamp?
    requires buffer.Shape() && buffer.bytes >= 8 && buffer.Holds(src, item)
    requires 0 <= src.seed && src.seed + buffer.words.Length <= U32
    requires 0 <= seed' && seed' + buffer.words.Length <= U32
    ensures buffer.Holds(src.(rank := rank', seed := seed'), item') <==> rank' == src.rank && seed' == src.seed
  {
    hide Fill;
    var src' := src.(rank := rank', seed := seed');
    FillTellsApart(src, 0, src', 0);
    assert buffer.words[0] == Expected(src, item, 0);
    if rank' == src.rank && seed' == src.seed {
      assert src' == src;
      forall i | 0 <= i < buffer.words.Length ensures buffer.words[i] == Expected(src', item', i) {
        assert buffer.words[i] == Expected(src, item, i);
      }
    }
  }

  /** A timestamp buffer whose contents are shifted by whole words does not verify. */
  lemma ShiftedDoesNotHold(buffer: Buffer, src: Source, item: nat, shift: nat)
    requires SourceOk(src) && src.packet.Timestamp? && buffer.Shape() && buffer.bytes >= 8 && shift > 0
    requires 0 <= src.seed && src.seed + buffer.words.Length + shift <= U32
    requires forall i :: 0 <= i < buffer.words.Length ==> buffer.words[i] == Expected(src, item, i + shift)
    ensures !buffer.Holds(src, item)
  {
    hide Fill;
    FillTellsApart(src, 0, src, shift);
    assert buffer.words[0] == Expected(src, item, 0 + shift);
  }

  /**
   With a negative seed the sign takes the place of the rank: patterns of two ranks
   are the same if and only if the ranks are, or seed and index stay negative.
   */
  lemma RankIsLostIff(src: Source, item: nat, rank': nat, size: nat)
    requires SourceOk(src) && SourceOk(src.(rank := rank')) && src.packet.Timestamp?
    requires size > 0 && src.seed + size <= U32
    ensures SameWords(src, item, src.(rank := rank'), item, size) <==> rank' == src.rank || src.seed + size <= 0
  {
    hide Fill;
    var src', last := src.(rank := rank'), size - 1;
    if rank' == src.rank {
      assert src' == src;
    } else {
      forall i | 0 <= i < size
        ensures Expected(src, item, i) == Expected(src', item, i) <==> src.seed + i < 0
      {
        PlainFill(src, i);
        PlainFill(src', i);
        if src.seed + i >= 0 {
          DivModUnique(Fill(src, i), U32, src.rank, src.seed + i);
          DivModUnique(Fill(src', i), U32, rank', src.seed + i);
        }
      }
      assert src.seed + last < 0 <==> Expected(src, item, last) == Expected(src', item, last);
    }
  }

  /** The two numbers that an incompressible buffer is made of. */
  function Drawn(src: Source): (Word32, Word32)
    requires SourceOk(src)
  {
    var (hi, next) := src.rand(ToWord32(src.seed + src.rank));
    (hi, src.rand(next).0)
  }

  /** Two incompressible words are the same if and only if both numbers drawn for them are. */
  lemma IncompressibleTellsApart(src: Source, i: nat, src': Source, i': nat)
    requires SourceOk(src) && SourceOk(src') && src.packet.Incompressible? && src'.packet.Incompressible?
    ensures Fill(src, i) == Fill(src', i') <==> Drawn(src) == Drawn(src')
  {
    DivModUnique(Fill(src, i), U32, Drawn(src).0, Drawn(src).1);
    DivModUnique(Fill(src', i'), U32, Drawn(src').0, Drawn(src').1);
  }

  const GOLDEN_INVERSE := 0x6208001000040001

  /** A random word gives back the state before it, but for the three bits that were shifted out. */
  lemma RandomStateBack(src: Source, item: nat, n: nat) returns (bits: nat)
    requires SourceOk(src)
    ensures bits < 8
    ensures RandomState(src, item, n) == (RandomState(src, item, n + 1) * 8 + bits) * GOLDEN_INVERSE % U64
  {
    hide *;
    NextState(src, item, n);
    GoldenInverse();
    bits := StateBefore(RandomState(src, item, n), GOLDEN_RATIO_PRIME, GOLDEN_INVERSE, U64);
  }

  lemma GoldenInverse()
    ensures U64 > 0 && GOLDEN_RATIO_PRIME > 0 && GOLDEN_INVERSE > 0 && GOLDEN_RATIO_PRIME * GOLDEN_INVERSE % U64 == 1
  {
  }

  lemma StateBefore(s: nat, p: nat, q: nat, m: nat) returns (bits: nat)
    requires s < m && p * q % m == 1
    ensures bits < 8 && s == (s * p % m / 8 * 8 + bits) * q % m
  {
    bits := s * p % m % 8;
    assert s * p % m / 8 * 8 + bits == s * p % m;
    MultiplyBack(s, p, q, m);
  }

  lemma NextState(src: Source, item: nat, n: nat)
    requires SourceOk(src)
    ensures U64 > 0 && RandomState(src, item, n) < U64
    ensures RandomState(src, item, n + 1) == RandomState(src, item, n) * GOLDEN_RATIO_PRIME % U64 / 8
  {
  }

  lemma MultiplyBack(s: nat, p: nat, q: nat, m: nat)
    requires s < m && p * q % m == 1
    ensures s * p % m * q % m == s
  {
    var k, j := s * p / m, p * q / m;
    assert s * p == k * m + s * p % m;
    assert p * q == j * m + 1;
    assert s * p % m * q == (s * p - k * m) * q == s * p * q - k * m * q;
    assert s * p * q == s * (p * q) == s * (j * m + 1) == s * j * m + s;
    assert k * m * q == k * q * m;
    assert s * p % m * q == s + (s * j - k * q) * m;
    ModOfShift(s, m, s * j - k * q);
    DivModUnique(s, m, 0, s);
  }

  // ----------------------------------------------------- marks of different blocks

  /** An odd number times `x` is a multiple of a power of two only if `x` is. */
  lemma {:induction false} OddFactor(odd: nat, x: nat, n: nat)
    requires odd % 2 == 1 && odd * x % Pow2(n) == 0
    ensures x % Pow2(n) == 0
  {
    if n > 0 {
      var p := Pow2(n - 1);
      var q := odd * x / (2 * p);
      assert odd * x == q * (2 * p);
      HalfOfProduct(odd, x, q * p);
      var h := x / 2;
      assert odd * (2 * h) == 2 * (odd * h);
      assert odd * h == q * p;
      DivModUnique(odd * h, p, q, 0);
      OddFactor(odd, h, n - 1);
      var r := h / p;
      assert h == r * p;
      assert x == r * (2 * p);
      DivModUnique(x, 2 * p, r, 0);
    }
  }

  lemma HalfOfProduct(odd: nat, x: nat, h: nat)
    requires odd % 2 == 1 && odd * x == 2 * h
    ensures x % 2 == 0 && x == 2 * (x / 2)
  {
    var k := odd / 2;
    assert odd == 2 * k + 1;
    assert odd * x == 2 * (k * x) + x;
  }

  /** Within a buffer, the marks of two blocks are the same only if the item times their distance wraps around to 0. */
  lemma MarksAgreeIff(src: Source, item: nat, k: nat, k': nat)
    requires SourceOk(src) && k <= k'
    ensures Mark(src, item, k) == Mark(src, item, k') <==> ToWord32(item) * (k' - k) % U32 == 0
  {
    var w := ToWord32(item);
    var d := w * (k' - k);
    assert w * k' == w * k + d;
    if d % U32 == 0 {
      ModOfShift(w * k, U32, d / U32);
      assert d == d / U32 * U32;
    }
    if w * k % U32 == w * k' % U32 {
      var q := w * k' / U32 - w * k / U32;
      assert d == q * U32;
      DivModUnique(d, U32, q, 0);
    }
  }

  /** For an odd item every block of a buffer has a mark of its own. */
  lemma OddItemsMarkBlocks(src: Source, item: nat, k: nat, k': nat)
    requires SourceOk(src) && item % 2 == 1 && k < k' < k + U32
    ensures Mark(src, item, k) != Mark(src, item, k')
  {
    hide Pow2, Mark;
    MarksAgreeIff(src, item, k, k');
    WordSize();
    OddWord(item);
    if ToWord32(item) * (k' - k) % U32 == 0 {
      OddFactor(ToWord32(item), k' - k, 32);
      DivModUnique(k' - k, U32, 0, k' - k);
    }
  }

  lemma OddWord(item: nat)
    requires item % 2 == 1
    ensures ToWord32(item) % 2 == 1
  {
    OddRemainder(item, 0x8000_0000);
  }

  lemma OddRemainder(a: nat, h: nat)
    requires a % 2 == 1 && h > 0
    ensures a % (2 * h) % 2 == 1
  {
    var q := a / (2 * h);
    assert a == q * (2 * h) + a % (2 * h);
    assert q * (2 * h) == 2 * (q * h);
  }
}
