/**
 * One segment of the data memory: 2^10 words, each either never written
 * (`None`) or holding a 32-bit value. This replaces the Java pair of an
 * `int[]` and a `BitSet` of written words; a cleared bit is `None`.
 *
 * The segment is addressed with byte addresses. Segments are cut out of
 * the address space 2^10 words (2^12 bytes) at a time, but the segment
 * computes the word of a byte address from address bits 2 to 9 only, so
 * four byte addresses of a segment share each of its first 256 words.
 */
module MemorySegment {
  import opened Wrappers

  const SizePower: nat := 10
  const NumWords: nat := 1024

  /** The words of a segment, in index order. */
  type Segment = s: seq<Option<bv32>> | |s| == NumWords witness seq(1024, _ => None)

  /** A new segment: 2^10 words, none of them written. */
  function Empty(): (s: Segment)
    ensures forall i :: 0 <= i < |s| ==> s[i] == None
  {
    seq(NumWords, _ => None)
  }

  /**
   * The word index of a byte address as the segment computes it: the
   * address is cut to its low `SizePower` bits and the two byte-offset bits
   * are dropped. Only the first quarter of the words is ever used, and byte
   * addresses 0x400 apart share a word (see `IntendedIndex`).
   */
  function Index(address: bv32): (i: nat)
    ensures i < NumWords / 4
  {
    IndexBits(address) as int
  }

  /** Bits 2 to 9 of a byte address, as the 10-bit array index. */
  function IndexBits(address: bv32): bv10 {
    (((address << 22) >> 22) >> 2) as bv10
  }

  /**
   * What of a byte address picks a word of the memory: every bit except
   * the byte offset (bits 0 and 1) and the two bits the index drops (10
   * and 11).
   */
  function Slot(address: bv32): bv32 {
    address & 0xFFFF_F3FC
  }

  /** Addresses of one slot lie in one segment. */
  lemma SlotSegment(a: bv32, b: bv32)
    requires Slot(a) == Slot(b)
    ensures a >> 12 == b >> 12
  {
  }

  /** Within one segment, two addresses share an index exactly when they share a slot. */
  lemma IndexSlot(a: bv32, b: bv32)
    requires a >> 12 == b >> 12
    ensures Index(a) == Index(b) <==> Slot(a) == Slot(b)
  {
    assert IndexBits(a) as int as bv10 == IndexBits(a);
    assert IndexBits(b) as int as bv10 == IndexBits(b);
    IndexBitsSlot(a, b);
  }

  lemma IndexBitsSlot(a: bv32, b: bv32)
    requires a >> 12 == b >> 12
    ensures IndexBits(a) == IndexBits(b) <==> Slot(a) == Slot(b)
  {
  }

  /**
   * The index the segment evidently means: bits 2 to 11 of the byte
   * address, one index for each of the 2^10 words of a 4096-byte segment.
   */
  function IntendedIndex(address: bv32): (i: nat)
    ensures i < NumWords
  {
    WordBits(address) as int
  }

  /** Bits 2 to 11 of a byte address. */
  function WordBits(address: bv32): bv10 {
    ((address >> 2) & 0x3FF) as bv10
  }

  /**
   * With the intended index, two byte addresses of the same segment that
   * lie in different words get different indices.
   */
  lemma IntendedIndexDistinct(a: bv32, b: bv32)
    requires a >> 12 == b >> 12 && a >> 2 != b >> 2
    ensures IntendedIndex(a) != IntendedIndex(b)
  {
    WordBitsDistinct(a, b);
    assert WordBits(a) as int as bv10 == WordBits(a);
  }

  lemma WordBitsDistinct(a: bv32, b: bv32)
    requires a >> 12 == b >> 12 && a >> 2 != b >> 2
    ensures WordBits(a) != WordBits(b)
  {
    assert (a >> 2) & 0x3FF != (b >> 2) & 0x3FF;
  }

  /**
   * The index as written merges the words at byte addresses 0x0 and 0x400,
   * which belong to the same 4096-byte segment; the intended index keeps
   * them apart.
   */
  lemma IndexAliasing()
    ensures (0x0 as bv32) >> 12 == (0x400 as bv32) >> 12
    ensures Index(0x0) == Index(0x400)
    ensures IntendedIndex(0x0) != IntendedIndex(0x400)
  {
  }

  // ---------------------------------------------------------------------
  // Word access by index
  // ---------------------------------------------------------------------

  /** Writes `value` into word `i` and marks it written. */
  function StoreWordAt(s: Segment, i: nat, value: bv32): (r: Segment)
    requires i < NumWords
    ensures r[i] == Some(value)
    ensures forall j :: 0 <= j < NumWords && j != i ==> r[j] == s[j]
  {
    s[i := Some(value)]
  }

  /**
   * Reads word `i`. A word never written reads 0 and is then stored as 0,
   * so it counts as written from then on.
   */
  function LoadWordAt(s: Segment, i: nat): (r: (bv32, Segment))
    requires i < NumWords
    ensures r.1[i] == Some(r.0)
    ensures s[i].Some? ==> r.0 == s[i].value && r.1 == s
    ensures s[i].None? ==> r.0 == 0
    ensures forall j :: 0 <= j < NumWords && j != i ==> r.1[j] == s[j]
  {
    if s[i].Some? then (s[i].value, s) else (0, StoreWordAt(s, i, 0))
  }

  // ---------------------------------------------------------------------
  // Word access by byte address
  // ---------------------------------------------------------------------

  function LoadWord(s: Segment, address: bv32): (r: (bv32, Segment))
  {
    LoadWordAt(s, Index(address))
  }

  function StoreWord(s: Segment, address: bv32, value: bv32): (r: Segment)
  {
    StoreWordAt(s, Index(address), value)
  }

  /** The word of `address` has been stored to, or read while unwritten. */
  function IsWordWritten(s: Segment, address: bv32): (r: bool)
  {
    s[Index(address)].Some?
  }

  /** A store followed by a load of the same address returns the stored value. */
  lemma StoreThenLoad(s: Segment, address: bv32, value: bv32)
    ensures LoadWord(StoreWord(s, address, value), address) == (value, StoreWord(s, address, value))
  {
  }

  /**
   * A store to byte address 0x0 is read back from byte address 0x400 of the
   * same segment.
   */
  lemma StoreAliasing(s: Segment, value: bv32)
    ensures LoadWord(StoreWord(s, 0x0, value), 0x400).0 == value
  {
    IndexAliasing();
  }

  /**
   * A store leaves every other slot of the segment as it was: a load of an
   * address of the same segment in another slot returns what it returned
   * before, and a load of an address in the same slot returns the value
   * stored.
   */
  lemma StoreOtherWord(s: Segment, a: bv32, b: bv32, value: bv32)
    requires a >> 12 == b >> 12
    ensures Slot(a) != Slot(b) ==> LoadWord(StoreWord(s, a, value), b).0 == LoadWord(s, b).0
    ensures Slot(a) == Slot(b) ==> LoadWord(StoreWord(s, a, value), b).0 == value
  {
    IndexSlot(a, b);
  }

  /**
   * A second load of an address returns what the first returned and changes
   * nothing more: only the first read of an unwritten word promotes it.
   */
  lemma LoadTwice(s: Segment, address: bv32)
    ensures LoadWord(LoadWord(s, address).1, address) == (LoadWord(s, address).0, LoadWord(s, address).1)
  {
  }

  /** `LoadWord` with the intended index. */
  function IntendedLoadWord(s: Segment, address: bv32): (r: (bv32, Segment))
  {
    LoadWordAt(s, IntendedIndex(address))
  }

  /** `StoreWord` with the intended index. */
  function IntendedStoreWord(s: Segment, address: bv32, value: bv32): (r: Segment)
  {
    StoreWordAt(s, IntendedIndex(address), value)
  }

  /**
   * With the intended index a store is read back from its own address and
   * leaves every other word of the segment as it was.
   */
  lemma IntendedStoreOtherWord(s: Segment, a: bv32, b: bv32, value: bv32)
    requires a >> 12 == b >> 12
    ensures IntendedLoadWord(IntendedStoreWord(s, a, value), a).0 == value
    ensures a >> 2 != b >> 2 ==> IntendedLoadWord(IntendedStoreWord(s, a, value), b).0 == IntendedLoadWord(s, b).0
  {
    if a >> 2 != b >> 2 {
      IntendedIndexDistinct(a, b);
    }
  }

  // ---------------------------------------------------------------------
  // Written words
  // ---------------------------------------------------------------------

  /** The number of written words in `s`. */
  function CountWritten(s: seq<Option<bv32>>): (n: nat)
    ensures n <= |s|
  {
    if |s| == 0 then 0
    else CountWritten(s[..|s| - 1]) + (if s[|s| - 1].Some? then 1 else 0)
  }

  /** No word of a new segment is written. */
  lemma {:induction false} CountEmpty(s: seq<Option<bv32>>)
    requires forall i :: 0 <= i < |s| ==> s[i] == None
    ensures CountWritten(s) == 0
  {
    if |s| > 0 {
      CountEmpty(s[..|s| - 1]);
    }
  }

  predicate StrictlyAscending(r: seq<nat>) {
    forall i, j :: 0 <= i < j < |r| ==> r[i] < r[j]
  }

  /**
   * The indices of the written words, in ascending order: one entry per
   * written word.
   */
  method WrittenAddresses(s: Segment) returns (r: seq<nat>)
    ensures StrictlyAscending(r)
    ensures forall k :: 0 <= k < |r| ==> r[k] < NumWords && s[r[k]].Some?
    ensures forall i :: i in r <==> 0 <= i < NumWords && s[i].Some?
    ensures |r| == CountWritten(s)
  {
    r := [];
    var i := 0;
    while i < NumWords
      invariant 0 <= i <= NumWords
      invariant StrictlyAscending(r)
      invariant forall j :: 0 <= j < |r| ==> r[j] < i && s[r[j]].Some?
      invariant forall k :: k in r <==> 0 <= k < i && s[k].Some?
      invariant |r| == CountWritten(s[..i])
    {
      assert s[..i + 1][..i] == s[..i];
      if s[i].Some? {
        r := r + [i];
      }
      i := i + 1;
    }
    assert s[..NumWords] == s;
  }
}
