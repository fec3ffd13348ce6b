/**
 * Halfword and byte access on top of the word memory. A narrow load reads
 * the enclosing word and shifts the wanted part down; a narrow store reads
 * the enclosing word (or starts from 0 when it was never written), replaces
 * the part and writes the word back.
 *
 * Halfword 0 and byte 0 are the least significant ones: the halfword of
 * address `a` is selected by bit 1 of `a`, the byte by bits 0 and 1. Word
 * loads, word stores and the written-word queries are those of the
 * segmented memory itself.
 */
module DataMemoryPlus {
  import opened BitOperations
  import CachedSegments
  import MemorySegment

  type Memory = CachedSegments.Memory

  // ---------------------------------------------------------------------
  // Parts of a word
  // ---------------------------------------------------------------------

  /** Which halfword of its word `address` names: 0 or 1. */
  function HalfwordOffset(address: bv32): (o: bv32)
    ensures o <= 1
  {
    (address >> 1) & 1
  }

  /** Which byte of its word `address` names: 0 to 3. */
  function ByteOffset(address: bv32): (o: bv32)
    ensures o <= 3
  {
    address & 3
  }

  /** Halfword `k` of `word` (0 is the less significant one). */
  function Half(word: bv32, k: bv32): bv32
    requires k <= 1
  {
    if k == 0 then word & 0xFFFF else word >> 16
  }

  /** `word` with halfword `k` replaced by the low 16 bits of `value`. */
  function WithHalf(word: bv32, k: bv32, value: bv32): bv32
    requires k <= 1
  {
    if k == 0 then (word & 0xFFFF_0000) | (value & 0xFFFF)
    else ((value & 0xFFFF) << 16) | (word & 0xFFFF)
  }

  /** Byte `k` of `word`, 0 to 3, least significant first. */
  function Lane(word: bv32, k: bv32): bv32
    requires k <= 3
  {
    if k == 0 then word & 0xFF
    else if k == 1 then (word >> 8) & 0xFF
    else if k == 2 then (word >> 16) & 0xFF
    else word >> 24
  }

  /** `word` with byte `k` replaced by the low 8 bits of `value`. */
  function WithLane(word: bv32, k: bv32, value: bv32): bv32
    requires k <= 3
  {
    if k == 0 then (word & 0xFFFF_FF00) | (value & 0xFF)
    else if k == 1 then (word & 0xFFFF_00FF) | ((value & 0xFF) << 8)
    else if k == 2 then (word & 0xFF00_FFFF) | ((value & 0xFF) << 16)
    else (word & 0x00FF_FFFF) | ((value & 0xFF) << 24)
  }

  /** Replacing a halfword changes that halfword to the new value and keeps the other. */
  lemma HalfAfterWithHalf(word: bv32, k: bv32, j: bv32, value: bv32)
    requires k <= 1 && j <= 1
    ensures Half(WithHalf(word, k, value), j) == if j == k then value & 0xFFFF else Half(word, j)
  {
    if k == 0 {
      LowHalfReplaced(word, value);
    } else {
      HighHalfReplaced(word, value);
    }
  }

  lemma LowHalfReplaced(word: bv32, value: bv32)
    ensures ((word & 0xFFFF_0000) | (value & 0xFFFF)) & 0xFFFF == value & 0xFFFF
    ensures ((word & 0xFFFF_0000) | (value & 0xFFFF)) >> 16 == word >> 16
  {
  }

  lemma HighHalfReplaced(word: bv32, value: bv32)
    ensures (((value & 0xFFFF) << 16) | (word & 0xFFFF)) & 0xFFFF == word & 0xFFFF
    ensures (((value & 0xFFFF) << 16) | (word & 0xFFFF)) >> 16 == value & 0xFFFF
  {
  }

  /** Replacing a byte changes that byte to the new value and keeps the other three. */
  lemma LaneAfterWithLane(word: bv32, k: bv32, j: bv32, value: bv32)
    requires k <= 3 && j <= 3
    ensures Lane(WithLane(word, k, value), j) == if j == k then value & 0xFF else Lane(word, j)
  {
    if k == 0 {
      Lane0Replaced(word, value);
    } else if k == 1 {
      Lane1Replaced(word, value);
    } else if k == 2 {
      Lane2Replaced(word, value);
    } else {
      Lane3Replaced(word, value);
    }
  }

  lemma Lane0Replaced(word: bv32, value: bv32)
    ensures ((word & 0xFFFF_FF00) | (value & 0xFF)) & 0xFF == value & 0xFF
    ensures (((word & 0xFFFF_FF00) | (value & 0xFF)) >> 8) & 0xFF == (word >> 8) & 0xFF
    ensures (((word & 0xFFFF_FF00) | (value & 0xFF)) >> 16) & 0xFF == (word >> 16) & 0xFF
    ensures ((word & 0xFFFF_FF00) | (value & 0xFF)) >> 24 == word >> 24
  {
  }

  lemma Lane1Replaced(word: bv32, value: bv32)
    ensures ((word & 0xFFFF_00FF) | ((value & 0xFF) << 8)) & 0xFF == word & 0xFF
    ensures (((word & 0xFFFF_00FF) | ((value & 0xFF) << 8)) >> 8) & 0xFF == value & 0xFF
    ensures (((word & 0xFFFF_00FF) | ((value & 0xFF) << 8)) >> 16) & 0xFF == (word >> 16) & 0xFF
    ensures ((word & 0xFFFF_00FF) | ((value & 0xFF) << 8)) >> 24 == word >> 24
  {
  }

  lemma Lane2Replaced(word: bv32, value: bv32)
    ensures ((word & 0xFF00_FFFF) | ((value & 0xFF) << 16)) & 0xFF == word & 0xFF
    ensures (((word & 0xFF00_FFFF) | ((value & 0xFF) << 16)) >> 8) & 0xFF == (word >> 8) & 0xFF
    ensures (((word & 0xFF00_FFFF) | ((value & 0xFF) << 16)) >> 16) & 0xFF == value & 0xFF
    ensures ((word & 0xFF00_FFFF) | ((value & 0xFF) << 16)) >> 24 == word >> 24
  {
  }

  lemma Lane3Replaced(word: bv32, value: bv32)
    ensures ((word & 0x00FF_FFFF) | ((value & 0xFF) << 24)) & 0xFF == word & 0xFF
    ensures (((word & 0x00FF_FFFF) | ((value & 0xFF) << 24)) >> 8) & 0xFF == (word >> 8) & 0xFF
    ensures (((word & 0x00FF_FFFF) | ((value & 0xFF) << 24)) >> 16) & 0xFF == (word >> 16) & 0xFF
    ensures ((word & 0x00FF_FFFF) | ((value & 0xFF) << 24)) >> 24 == value & 0xFF
  {
  }

  /** The halfword of `word` that `address` names, moved to bits 0 to 15. */
  function ExtractHalfword(word: bv32, address: bv32): (h: bv32)
    ensures h == Half(word, HalfwordOffset(address))
  {
    (word >> (HalfwordOffset(address) * 16)) & 0xFFFF
  }

  /** The byte of `word` that `address` names, moved to bits 0 to 7. */
  function ExtractByte(word: bv32, address: bv32): (b: bv32)
    ensures b == Lane(word, ByteOffset(address))
  {
    (word >> (ByteOffset(address) * 8)) & 0xFF
  }

  /** `word` with the halfword that `address` names replaced by the low 16 bits of `value`. */
  function InsertHalfword(word: bv32, address: bv32, value: bv32): (w: bv32)
    ensures w == WithHalf(word, HalfwordOffset(address), value)
  {
    var position := (HalfwordOffset(address) * 16) as bv5;
    HalfwordField(position, value, word);
    WriteBits(position, 16, value, word)
  }

  lemma HalfwordField(position: bv5, value: bv32, word: bv32)
    requires position == 0 || position == 16
    ensures position == 0 ==> WriteBits(position, 16, value, word) == (word & 0xFFFF_0000) | (value & 0xFFFF)
    ensures position == 16 ==> WriteBits(position, 16, value, word) == ((value & 0xFFFF) << 16) | (word & 0xFFFF)
  {
    if position == 0 {
      assert Mask(0, 16) == 0xFFFF;
    } else {
      WriteUpperHalf(value, word);
    }
  }

  /** `word` with the byte that `address` names replaced by the low 8 bits of `value`. */
  function InsertByte(word: bv32, address: bv32, value: bv32): (w: bv32)
    ensures w == WithLane(word, ByteOffset(address), value)
  {
    var position := (ByteOffset(address) * 8) as bv5;
    ByteField(position, value, word);
    WriteBits(position, 8, value, word)
  }

  lemma ByteField(position: bv5, value: bv32, word: bv32)
    requires position == 0 || position == 8 || position == 16 || position == 24
    ensures position == 0 ==> WriteBits(position, 8, value, word) == (word & 0xFFFF_FF00) | (value & 0xFF)
    ensures position == 8 ==> WriteBits(position, 8, value, word) == (word & 0xFFFF_00FF) | ((value & 0xFF) << 8)
    ensures position == 16 ==> WriteBits(position, 8, value, word) == (word & 0xFF00_FFFF) | ((value & 0xFF) << 16)
    ensures position == 24 ==> WriteBits(position, 8, value, word) == (word & 0x00FF_FFFF) | ((value & 0xFF) << 24)
  {
    if position == 0 {
      assert Mask(0, 8) == 0xFF;
    } else if position == 8 {
      assert Mask(8, 8) == 0xFF00;
    } else if position == 16 {
      assert Mask(16, 8) == 0xFF_0000;
    } else {
      assert Mask(24, 8) == 0xFF00_0000;
    }
  }

  /** Reading back an inserted halfword gives its low 16 bits; the other halfword is kept. */
  lemma HalfwordRoundTrip(word: bv32, a: bv32, b: bv32, value: bv32)
    ensures ExtractHalfword(InsertHalfword(word, a, value), a) == value & 0xFFFF
    ensures HalfwordOffset(b) != HalfwordOffset(a) ==>
      ExtractHalfword(InsertHalfword(word, a, value), b) == ExtractHalfword(word, b)
  {
    HalfAfterWithHalf(word, HalfwordOffset(a), HalfwordOffset(a), value);
    HalfAfterWithHalf(word, HalfwordOffset(a), HalfwordOffset(b), value);
  }

  /** Reading back an inserted byte gives its low 8 bits; the other bytes are kept. */
  lemma ByteRoundTrip(word: bv32, a: bv32, b: bv32, value: bv32)
    ensures ExtractByte(InsertByte(word, a, value), a) == value & 0xFF
    ensures ByteOffset(b) != ByteOffset(a) ==>
      ExtractByte(InsertByte(word, a, value), b) == ExtractByte(word, b)
  {
    LaneAfterWithLane(word, ByteOffset(a), ByteOffset(a), value);
    LaneAfterWithLane(word, ByteOffset(a), ByteOffset(b), value);
  }

  // ---------------------------------------------------------------------
  // Memory access
  // ---------------------------------------------------------------------

  /** Loads the halfword at `address`; the enclosing word is read as by a word load. */
  function LoadHalfword(m: Memory, address: bv32): (r: (bv32, Memory))
    ensures r.0 <= 0xFFFF
    ensures r.0 == ExtractHalfword(CachedSegments.LoadWord(m, address).0, address)
    ensures r.1 == CachedSegments.LoadWord(m, address).1
  {
    var load := CachedSegments.LoadWord(m, address);
    var offset := HalfwordOffset(address);
    ((load.0 >> (offset * 16)) & 0xFFFF, load.1)
  }

  /** Loads the byte at `address`; the enclosing word is read as by a word load. */
  function LoadByte(m: Memory, address: bv32): (r: (bv32, Memory))
    ensures r.0 <= 0xFF
    ensures r.0 == ExtractByte(CachedSegments.LoadWord(m, address).0, address)
    ensures r.1 == CachedSegments.LoadWord(m, address).1
  {
    var load := CachedSegments.LoadWord(m, address);
    var offset := ByteOffset(address);
    ((load.0 >> (offset * 8)) & 0xFF, load.1)
  }

  /**
   * The word that a narrow store starts from: the stored word if it was
   * written, else 0. Either way this is what a word load would return.
   */
  function WordBeforeStore(m: Memory, address: bv32): (r: (bv32, Memory))
    ensures r.0 == CachedSegments.LoadWord(m, address).0
    ensures r.1.segments == CachedSegments.MapIsWordWritten(m.segments, address).1
  {
    var written := CachedSegments.IsWordWritten(m, address);
    if written.0 then
      var load := CachedSegments.LoadWord(written.1, address);
      (load.0, load.1)
    else
      (0, written.1)
  }

  /**
   * Stores the low 16 bits of `value` into the halfword at `address`. The
   * segments end up as if the merged word had been stored directly.
   */
  function StoreHalfword(m: Memory, address: bv32, value: bv32): (r: Memory)
    ensures r.segments == CachedSegments.MapStoreWord(m.segments, address,
      InsertHalfword(CachedSegments.LoadWord(m, address).0, address, value))
  {
    var before := WordBeforeStore(m, address);
    var position := (HalfwordOffset(address) * 16) as bv5;
    CachedSegments.StoreWord(before.1, address, WriteBits(position, 16, value, before.0))
  }

  /**
   * Stores the low 8 bits of `value` into the byte at `address`. The
   * segments end up as if the merged word had been stored directly.
   */
  function StoreByte(m: Memory, address: bv32, value: bv32): (r: Memory)
    ensures r.segments == CachedSegments.MapStoreWord(m.segments, address,
      InsertByte(CachedSegments.LoadWord(m, address).0, address, value))
  {
    var before := WordBeforeStore(m, address);
    var position := (ByteOffset(address) * 8) as bv5;
    CachedSegments.StoreWord(before.1, address, WriteBits(position, 8, value, before.0))
  }

  /** A stored halfword is read back as its low 16 bits. */
  lemma StoreHalfwordThenLoad(m: Memory, address: bv32, value: bv32)
    ensures LoadHalfword(StoreHalfword(m, address, value), address).0 == value & 0xFFFF
  {
    var word := CachedSegments.LoadWord(m, address).0;
    HalfwordRoundTrip(word, address, address, value);
  }

  /** A halfword store keeps the other halfword of the same word. */
  lemma StoreHalfwordOtherHalf(m: Memory, a: bv32, b: bv32, value: bv32)
    requires MemorySegment.Slot(a) == MemorySegment.Slot(b) && HalfwordOffset(a) != HalfwordOffset(b)
    ensures LoadHalfword(StoreHalfword(m, a, value), b).0 == LoadHalfword(m, b).0
  {
    var word := CachedSegments.LoadWord(m, a).0;
    CachedSegments.SameWord(m, a, b, InsertHalfword(word, a, value));
    HalfwordRoundTrip(word, a, b, value);
  }

  /** The address of the other halfword in the same word. */
  function OtherHalf(address: bv32): (o: bv32)
    ensures o >> 2 == address >> 2
    ensures HalfwordOffset(o) != HalfwordOffset(address)
  {
    address ^ 2
  }

  /** A halfword store keeps the halfword next to it in the same word. */
  lemma StoreHalfwordKeepsOtherHalf(m: Memory, address: bv32, value: bv32)
    ensures LoadHalfword(StoreHalfword(m, address, value), OtherHalf(address)).0 == LoadHalfword(m, OtherHalf(address)).0
  {
    CachedSegments.SameWordSlot(address, OtherHalf(address));
    StoreHalfwordOtherHalf(m, address, OtherHalf(address), value);
  }

  /** A halfword store changes no word in another slot. */
  lemma StoreHalfwordOtherWord(m: Memory, a: bv32, b: bv32, value: bv32)
    requires MemorySegment.Slot(a) != MemorySegment.Slot(b)
    ensures CachedSegments.LoadWord(StoreHalfword(m, a, value), b).0 == CachedSegments.LoadWord(m, b).0
  {
    var word := InsertHalfword(CachedSegments.LoadWord(m, a).0, a, value);
    CachedSegments.StoreOtherWord(m, a, b, word);
  }

  /** A stored byte is read back as its low 8 bits. */
  lemma StoreByteThenLoad(m: Memory, address: bv32, value: bv32)
    ensures LoadByte(StoreByte(m, address, value), address).0 == value & 0xFF
  {
    var word := CachedSegments.LoadWord(m, address).0;
    ByteRoundTrip(word, address, address, value);
  }

  /** A byte store keeps the other bytes of the same word. */
  lemma StoreByteOtherByte(m: Memory, a: bv32, b: bv32, value: bv32)
    requires MemorySegment.Slot(a) == MemorySegment.Slot(b) && ByteOffset(a) != ByteOffset(b)
    ensures LoadByte(StoreByte(m, a, value), b).0 == LoadByte(m, b).0
  {
    var word := CachedSegments.LoadWord(m, a).0;
    CachedSegments.SameWord(m, a, b, InsertByte(word, a, value));
    ByteRoundTrip(word, a, b, value);
  }

  /** A byte store changes no word in another slot. */
  lemma StoreByteOtherWord(m: Memory, a: bv32, b: bv32, value: bv32)
    requires MemorySegment.Slot(a) != MemorySegment.Slot(b)
    ensures CachedSegments.LoadWord(StoreByte(m, a, value), b).0 == CachedSegments.LoadWord(m, b).0
  {
    var word := InsertByte(CachedSegments.LoadWord(m, a).0, a, value);
    CachedSegments.StoreOtherWord(m, a, b, word);
  }

  /** The address of the upper byte of the halfword at an even address. */
  function UpperByte(address: bv32): bv32 {
    address | 1
  }

  /**
   * The two bytes of an aligned halfword: the byte at the even address is
   * its low half and the byte at the next address its high half.
   */
  lemma HalfwordBytes(m: Memory, address: bv32)
    requires address & 1 == 0
    ensures LoadByte(m, address).0 == LoadHalfword(m, address).0 & 0xFF
    ensures LoadByte(m, UpperByte(address)).0 == LoadHalfword(m, address).0 >> 8
  {
    CachedSegments.SameWordSlot(address, address | 1);
    CachedSegments.SameWord(m, address, address | 1, 0);
    LanesOfHalf(CachedSegments.LoadWord(m, address).0, address);
  }

  lemma LanesOfHalf(word: bv32, address: bv32)
    requires address & 1 == 0
    ensures Lane(word, ByteOffset(address)) == Half(word, HalfwordOffset(address)) & 0xFF
    ensures Lane(word, ByteOffset(address | 1)) == Half(word, HalfwordOffset(address)) >> 8
  {
    EvenOffsets(address);
    if address & 3 == 0 {
      LanesOfLowHalf(word);
    } else {
      LanesOfHighHalf(word);
    }
  }

  /** The byte and halfword positions of an even address and its odd neighbour. */
  lemma EvenOffsets(address: bv32)
    requires address & 1 == 0
    ensures address & 3 == 0 ==>
      ByteOffset(address) == 0 && ByteOffset(address | 1) == 1 && HalfwordOffset(address) == 0
    ensures address & 3 != 0 ==>
      ByteOffset(address) == 2 && ByteOffset(address | 1) == 3 && HalfwordOffset(address) == 1
  {
  }

  lemma LanesOfLowHalf(word: bv32)
    ensures Lane(word, 0) == Half(word, 0) & 0xFF && Lane(word, 1) == Half(word, 0) >> 8
  {
  }

  lemma LanesOfHighHalf(word: bv32)
    ensures Lane(word, 2) == Half(word, 1) & 0xFF && Lane(word, 3) == Half(word, 1) >> 8
  {
  }
}
