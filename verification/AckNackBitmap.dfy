/** The set of missing sequence numbers of an ACKNACK as a bitmap of 32-bit words, high bit first. */
module AckNackBitmap {
  import opened Bytes
  import opened Words
  import opened Ascending

  const MAX_BITMAP_BITS: nat := 256

  function WordCount(numBits: nat): nat {
    (numBits + 31) / 32
  }

  datatype Bitmap = Bitmap(numBits: nat, words: seq<Word32>)

  const EMPTY_WORD: Word32 := seq(32, _ => false)

  predicate AllFrom(base: U64, missing: seq<U64>) {
    forall x <- missing :: base <= x
  }

  predicate WithinBits(base: U64, numBits: nat, missing: seq<U64>) {
    forall x <- missing :: base <= x < base + numBits
  }

  /** Bit `31 - k % 32` of word `k / 32` stands for the number `base + k`. */
  function WordsOf(base: U64, numBits: nat, missing: seq<U64>): (words: seq<Word32>)
    ensures |words| == WordCount(numBits)
  {
    seq(WordCount(numBits), j => seq(32, p => NumberAt(base, j, p) in missing))
  }

  /** The number that bit `p` of word `j` stands for. */
  function NumberAt(base: U64, j: int, p: int): int {
    base + 32 * j + (31 - p)
  }

  /** The bitmap ends with the largest missing number; none may lie before the base. */
  function BitmapOf(base: U64, missing: seq<U64>): Option<Bitmap> {
    var sorted := SortUnique(missing);
    if sorted == [] then Some(Bitmap(0, []))
    else
      var last := sorted[|sorted| - 1];
      if last < base || last - base >= MAX_BITMAP_BITS || !AllFrom(base, sorted) then None
      else Some(Bitmap(last - base + 1, WordsOf(base, last - base + 1, sorted)))
  }

  /** `words[j] |= 1 << p`. */
  function WithBit(words: seq<Word32>, j: nat, p: nat): seq<Word32>
    requires j < |words| && p < 32
  {
    words[j := words[j][p := true]]
  }

  lemma BitOfNumber(base: U64, numBits: nat, done: seq<U64>, x: U64)
    requires base <= x < base + numBits
    ensures var k := x - base;
      k / 32 < WordCount(numBits)
      && WithBit(WordsOf(base, numBits, done), k / 32, 31 - k % 32) == WordsOf(base, numBits, done + [x])
  {
    var k := x - base;
    var words := WordsOf(base, numBits, done);
    var next := WordsOf(base, numBits, done + [x]);
    forall j, p | 0 <= j < WordCount(numBits) && 0 <= p < 32
      ensures next[j][p] == WithBit(words, k / 32, 31 - k % 32)[j][p]
    {
      assert NumberAt(base, j, p) == x <==> j == k / 32 && p == 31 - k % 32;
    }
    assert forall j :: 0 <= j < |next| ==> next[j] == WithBit(words, k / 32, 31 - k % 32)[j];
  }

  lemma NoBits(base: U64, numBits: nat)
    ensures WordsOf(base, numBits, []) == seq(WordCount(numBits), _ => EMPTY_WORD)
  {
    var words := WordsOf(base, numBits, []);
    assert forall j :: 0 <= j < |words| ==> words[j] == EMPTY_WORD;
  }

  method AckNackBitmapWords(base: U64, missingNumbers: seq<U64>) returns (r: Option<Bitmap>)
    ensures r == BitmapOf(base, missingNumbers)
  {
    hide SortUnique, WordsOf, WithBit;
    var missing := SortUnique(missingNumbers);
    var numBits: nat := 0;
    if missing != [] {
      var last := missing[|missing| - 1];
      if last < base {
        return None;
      }
      var span := last - base + 1;
      if span > MAX_BITMAP_BITS {
        return None;
      }
      numBits := span;
    }
    var words := seq(WordCount(numBits), _ => EMPTY_WORD);
    NoBits(base, numBits);
    for i := 0 to |missing|
      invariant words == WordsOf(base, numBits, missing[..i])
      invariant AllFrom(base, missing[..i])
    {
      assert missing[i] in missing;
      if missing[i] < base {
        return None;
      }
      var relative := missing[i] - base;
      BitOfNumber(base, numBits, missing[..i], missing[i]);
      assert missing[..i] + [missing[i]] == missing[..i + 1];
      words := WithBit(words, relative / 32, 31 - relative % 32);
    }
    assert missing[..|missing|] == missing;
    r := Some(Bitmap(numBits, words));
  }

  // ----- on the wire -----

  function WordBytes(words: seq<Word32>): (b: seq<Byte>)
    ensures |b| == 4 * |words|
  {
    if words == [] then [] else PutU32Le(ToU32(words[0])) + WordBytes(words[1..])
  }

  /** Bit `k` of a bitmap of little-endian words, each read from its high bit. */
  predicate BitIsSet(bitmap: seq<Byte>, k: nat) {
    4 * (k / 32) + 4 <= |bitmap| && Digits(GetU32Le(bitmap, 4 * (k / 32)), 32)[31 - k % 32]
  }

  /** Bit `k` stands for `base + k` in 64-bit arithmetic. */
  function NumberOfBit(base: U64, k: nat): U64 {
    (base + k) % U64_MODULUS
  }

  /** The numbers of the first `numBits` bits, in 64-bit arithmetic. */
  function MissingIn(base: U64, bitmap: seq<Byte>, numBits: nat): (missing: seq<U64>) {
    if numBits == 0 then []
    else
      MissingIn(base, bitmap, numBits - 1)
      + if BitIsSet(bitmap, numBits - 1) then [NumberOfBit(base, numBits - 1)] else []
  }

  lemma {:induction false} WordBytesAt(words: seq<Word32>, j: nat)
    requires j < |words|
    ensures WordBytes(words)[4 * j..4 * j + 4] == PutU32Le(ToU32(words[j]))
  {
    if j > 0 {
      WordBytesAt(words[1..], j - 1);
      assert WordBytes(words)[4 * j..4 * j + 4] == WordBytes(words[1..])[4 * (j - 1)..4 * (j - 1) + 4];
    }
  }

  lemma BitOnWire(words: seq<Word32>, k: nat)
    requires k / 32 < |words|
    ensures BitIsSet(WordBytes(words), k) == words[k / 32][31 - k % 32]
  {
    hide GetU32Le, PutU32Le, Digits, WordBytes;
    var w := words[k / 32];
    WordBytesAt(words, k / 32);
    ReadU32Le(WordBytes(words), 4 * (k / 32), ToU32(w));
    DigitsOfValue(w);
  }

  lemma {:induction false} MissingElements(base: U64, bitmap: seq<Byte>, numBits: nat)
    ensures forall x <- MissingIn(base, bitmap, numBits) :: StandsFor(base, bitmap, numBits, x)
    ensures forall k: nat :: k < numBits && BitIsSet(bitmap, k) ==>
      NumberOfBit(base, k) in MissingIn(base, bitmap, numBits)
  {
    hide BitIsSet, NumberOfBit, StandsFor;
    if numBits > 0 {
      MissingElements(base, bitmap, numBits - 1);
      forall x <- MissingIn(base, bitmap, numBits)
        ensures StandsFor(base, bitmap, numBits, x)
      {
        if x in MissingIn(base, bitmap, numBits - 1) {
          StandsForMore(base, bitmap, numBits, x);
        } else {
          StandsForLast(base, bitmap, numBits);
        }
      }
    }
  }

  /** Some set bit stands for `x`. */
  predicate StandsFor(base: U64, bitmap: seq<Byte>, numBits: nat, x: U64) {
    exists k: nat :: k < numBits && BitIsSet(bitmap, k) && x == NumberOfBit(base, k)
  }

  lemma StandsForMore(base: U64, bitmap: seq<Byte>, numBits: nat, x: U64)
    requires 0 < numBits && StandsFor(base, bitmap, numBits - 1, x)
    ensures StandsFor(base, bitmap, numBits, x)
  {
    hide BitIsSet, NumberOfBit;
  }

  lemma StandsForLast(base: U64, bitmap: seq<Byte>, numBits: nat)
    requires 0 < numBits && BitIsSet(bitmap, numBits - 1)
    ensures StandsFor(base, bitmap, numBits, NumberOfBit(base, numBits - 1))
  {
    hide BitIsSet, NumberOfBit;
  }

  /** As long as nothing wraps, the numbers come out in ascending order. */
  lemma {:induction false} MissingAscends(base: U64, bitmap: seq<Byte>, numBits: nat)
    requires numBits <= U64_MODULUS
    requires AllFrom(base, MissingIn(base, bitmap, numBits))
    ensures IsAscending(MissingIn(base, bitmap, numBits))
    ensures WithinBits(base, numBits, MissingIn(base, bitmap, numBits))
  {
    hide BitIsSet, NumberOfBit;
    if numBits > 0 {
      var before := MissingIn(base, bitmap, numBits - 1);
      assert forall x <- before :: x in MissingIn(base, bitmap, numBits);
      MissingAscends(base, bitmap, numBits - 1);
      assert forall i :: 0 <= i < |before| ==> before[i] in before;
      if BitIsSet(bitmap, numBits - 1) {
        assert NumberOfBit(base, numBits - 1) in MissingIn(base, bitmap, numBits);
        NotWrapped(base, numBits - 1);
      }
    }
  }

  lemma NotWrapped(base: U64, k: nat)
    requires k < U64_MODULUS && (base <= NumberOfBit(base, k) || base + k < U64_MODULUS)
    ensures NumberOfBit(base, k) == base + k
  {
  }

  /** A bitmap with exactly the bits of an ascending list is read back as that list. */
  lemma NumbersReadBack(base: U64, bitmap: seq<Byte>, numBits: nat, sorted: seq<U64>)
    requires numBits <= U64_MODULUS
    requires IsAscending(sorted) && WithinBits(base, numBits, sorted)
    requires forall k: nat :: k < numBits ==> (BitIsSet(bitmap, k) <==> (base + k) in sorted)
    ensures MissingIn(base, bitmap, numBits) == sorted
  {
    hide BitIsSet, MissingIn, IsAscending, NumberOfBit;
    var got := MissingIn(base, bitmap, numBits);
    MissingElements(base, bitmap, numBits);
    forall x | x in got
      ensures x in sorted
    {
      var k: nat :| k < numBits && BitIsSet(bitmap, k) && x == NumberOfBit(base, k);
      assert (base + k) in sorted;
      NotWrapped(base, k);
    }
    forall x | x in sorted
      ensures x in got
    {
      var k: nat := x - base;
      NotWrapped(base, k);
      assert base + k == x && BitIsSet(bitmap, k);
    }
    MissingAscends(base, bitmap, numBits);
    AscendingIsUnique(got, sorted);
  }

  /** What is read back from a bitmap on the wire is the missing list, sorted and without duplicates. */
  lemma BitmapRoundTrip(base: U64, missing: seq<U64>)
    requires BitmapOf(base, missing).Some?
    ensures var b := BitmapOf(base, missing).value;
      && b.numBits <= MAX_BITMAP_BITS && |b.words| == WordCount(b.numBits)
      && MissingIn(base, WordBytes(b.words), b.numBits) == SortUnique(missing)
  {
    hide WordBytes, BitIsSet, IsAscending;
    var b := BitmapOf(base, missing).value;
    var sorted := SortUnique(missing);
    if sorted != [] {
      forall x | x in sorted
        ensures base <= x < base + b.numBits
      {
        LastIsLargest(missing);
        assert x in missing;
      }
      forall k: nat | k < b.numBits
        ensures BitIsSet(WordBytes(b.words), k) <==> (base + k) in sorted
      {
        BitOnWire(b.words, k);
      }
      NumbersReadBack(base, WordBytes(b.words), b.numBits, sorted);
    }
  }

  /** A parsed missing list can be written again exactly when no number wrapped round to before the base. */
  lemma ParsedListRewritable(base: U64, bitmap: seq<Byte>, numBits: nat)
    requires 4 * WordCount(numBits) <= |bitmap| && numBits <= MAX_BITMAP_BITS
    ensures var missing := MissingIn(base, bitmap, numBits);
      && (BitmapOf(base, missing).Some? <==> AllFrom(base, missing))
      && (AllFrom(base, missing) ==> SortUnique(missing) == missing && BitmapOf(base, missing).value.numBits <= numBits)
  {
    hide BitIsSet, MissingIn, WordsOf;
    var missing := MissingIn(base, bitmap, numBits);
    assert AllFrom(base, SortUnique(missing)) <==> AllFrom(base, missing);
    if AllFrom(base, missing) {
      MissingAscends(base, bitmap, numBits);
      SortUniqueOfAscending(missing);
      assert missing != [] ==> missing[|missing| - 1] in missing;
    }
  }
}
