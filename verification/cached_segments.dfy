/**
 * The sparse data memory: a map from segment address to segment, with a
 * one-entry cache of the segment used last.
 *
 * A segment is created, empty, the first time any address inside it is
 * touched. In the Java code the cache holds a reference to the segment
 * object that also sits in the map, so a write through the cache is a write
 * to the map. Here the cache holds a copy and every write updates both;
 * `Coherent` states that the two never disagree.
 *
 * The access counters only feed a statistics report; they are kept so that
 * the lookups can be followed step by step.
 */
module CachedSegments {
  import opened Wrappers
  import opened BitOperations
  import MemorySegment

  type Segment = MemorySegment.Segment

  /** Segments hold 2^10 words of 2^2 bytes: the segment address is the byte address above bit 11. */
  const SegmentSizePower: bv5 := 10
  const WordPower: bv5 := 2

  /** The cached address before any lookup. */
  const NoAddress: int := -1

  /** Segment addresses have 32 - 12 bits. */
  const NumSegments: nat := 0x10_0000

  datatype Store = Store(
    segments: map<int, Segment>,
    cachedAddress: int,
    cachedSegment: Option<Segment>,
    accesses: nat,
    misses: nat,
    noSegment: nat)

  /**
   * The cache either holds nothing or a copy of the map's segment for the
   * cached address. Every segment address is a 20-bit number, so none is -1.
   */
  predicate Coherent(m: Store) {
    && (forall sa :: sa in m.segments ==> 0 <= sa < NumSegments)
    && (if m.cachedAddress == NoAddress then m.cachedSegment == None
        else m.cachedAddress in m.segments && m.cachedSegment == Some(m.segments[m.cachedAddress]))
  }

  type Memory = m: Store | Coherent(m) witness Store(map[], -1, None, 0, 0, 0)

  /** A new memory: no segments, nothing cached, all counters 0. */
  function Init(): (m: Memory)
    ensures m.segments == map[] && m.cachedSegment == None
    ensures m.accesses == 0 && m.misses == 0 && m.noSegment == 0
  {
    Store(map[], NoAddress, None, 0, 0, 0)
  }

  /** The segment address of a byte address: a logical shift by 10 + 2. */
  function SegmentAddress(address: bv32): (sa: int)
    ensures 0 <= sa < NumSegments
  {
    SegmentBits(address) as int
  }

  /** The bits of a byte address above bit 11. */
  function SegmentBits(address: bv32): bv20 {
    (address >> SegmentSizePower >> WordPower) as bv20
  }

  /** Addresses whose bits above bit 11 differ lie in different segments. */
  lemma SegmentAddressDistinct(a: bv32, b: bv32)
    requires a >> 12 != b >> 12
    ensures SegmentAddress(a) != SegmentAddress(b)
  {
    assert SegmentBits(a) != SegmentBits(b);
    assert SegmentBits(a) as int as bv20 == SegmentBits(a);
  }

  /**
   * The full address of the word at in-segment position `index` of the
   * segment at `segmentAddress`: the segment address goes into bits 12 to
   * 31, above the low 12 bits of `index`.
   */
  function RecoverWordAddress(segmentAddress: bv32, index: bv32): (a: bv32)
    ensures a == (segmentAddress << 12) | (index & 0xFFF)
  {
    RecoverField(segmentAddress, index);
    // the field starts at bit 10 + 2 and takes the remaining 32 - 12 bits
    WriteBits(SegmentSizePower + WordPower, 20, segmentAddress, index)
  }

  lemma RecoverField(segmentAddress: bv32, index: bv32)
    ensures WriteBits(12, 20, segmentAddress, index) == (segmentAddress << 12) | (index & 0xFFF)
  {
    assert Mask(12, 20) == 0xFFFF_F000;
  }

  /**
   * Recovering takes a segment address and an in-segment index apart
   * again: a recovered address has the segment address it was built from
   * above bit 11 and the index below it, for every index below 2^12 (the
   * word indices of a segment are below 2^10). Conversely an address is
   * recovered from its own segment address and low 12 bits.
   */
  lemma RecoverInverse(address: bv32, segmentAddress: bv32, index: bv32)
    requires segmentAddress <= 0xF_FFFF && index <= 0xFFF
    ensures SegmentBits(RecoverWordAddress(segmentAddress, index)) as bv32 == segmentAddress
    ensures RecoverWordAddress(segmentAddress, index) & 0xFFF == index
    ensures RecoverWordAddress(SegmentBits(address) as bv32, address & 0xFFF) == address
  {
  }

  // ---------------------------------------------------------------------
  // Segment lookup
  // ---------------------------------------------------------------------

  /** The segment at `sa`, or a new empty one when there is none yet. */
  function SegmentAt(segments: map<int, Segment>, sa: int): Segment {
    if sa in segments then segments[sa] else MemorySegment.Empty()
  }

  /**
   * Looks a segment up through the cache. A hit returns the cached segment;
   * otherwise the map is consulted, and a segment found there becomes the
   * cached one. Every call counts one access.
   */
  function GetSegmentFromCache(m: Memory, sa: int): (r: (Option<Segment>, Memory))
    ensures r.0 == (if sa in m.segments then Some(m.segments[sa]) else None)
    ensures r.1.segments == m.segments
    ensures sa in m.segments ==> r.1.cachedAddress == sa
    ensures sa !in m.segments ==> r.1.cachedAddress == m.cachedAddress
    ensures r.1.accesses == m.accesses + 1
  {
    var m1 := m.(accesses := m.accesses + 1);
    if m1.cachedAddress == sa then
      (m1.cachedSegment, m1)
    else if sa !in m1.segments then
      (None, m1.(noSegment := m1.noSegment + 1))
    else
      (Some(m1.segments[sa]), m1.(cachedAddress := sa, cachedSegment := Some(m1.segments[sa]), misses := m1.misses + 1))
  }

  /**
   * The segment holding `address`, created empty on first touch. A created
   * segment is put in the map and then looked up again, so creation counts
   * two accesses.
   */
  function GetSegment(m: Memory, address: bv32): (r: (Segment, Memory))
    ensures r.1.segments == m.segments[SegmentAddress(address) := SegmentAt(m.segments, SegmentAddress(address))]
    ensures r.0 == SegmentAt(m.segments, SegmentAddress(address))
    ensures r.1.cachedAddress == SegmentAddress(address)
    ensures r.1.accesses == m.accesses + (if SegmentAddress(address) in m.segments then 1 else 2)
  {
    var sa := SegmentAddress(address);
    var lookup := GetSegmentFromCache(m, sa);
    if lookup.0.Some? then
      (lookup.0.value, lookup.1)
    else
      var again := GetSegmentFromCache(AddSegment(lookup.1, sa), sa);
      (again.0.value, again.1)
  }

  /** Puts a new empty segment in the map at `sa`, which holds none yet. */
  function AddSegment(m: Memory, sa: int): (r: Memory)
    requires sa !in m.segments && 0 <= sa < NumSegments
    ensures r.segments == m.segments[sa := MemorySegment.Empty()]
    ensures r.cachedAddress == m.cachedAddress && r.accesses == m.accesses
  {
    m.(segments := m.segments[sa := MemorySegment.Empty()])
  }

  /**
   * Replaces the segment at the cached address. The Java code writes
   * through the cached reference; here both the map and the cached copy
   * are updated.
   */
  function WriteBack(m: Memory, sa: int, s: Segment): (r: Memory)
    requires m.cachedAddress == sa && 0 <= sa < NumSegments
    ensures r.segments == m.segments[sa := s]
    ensures r.cachedAddress == sa
  {
    m.(segments := m.segments[sa := s], cachedSegment := Some(s))
  }

  // ---------------------------------------------------------------------
  // Word access
  // ---------------------------------------------------------------------

  /**
   * Reference behaviour without a cache: the operation applied to the map's
   * segment for the address (a new empty one if there is none), which is
   * then put back in the map.
   */
  function MapLoadWord(segments: map<int, Segment>, address: bv32): (bv32, map<int, Segment>) {
    var sa := SegmentAddress(address);
    var load := MemorySegment.LoadWord(SegmentAt(segments, sa), address);
    (load.0, segments[sa := load.1])
  }

  function MapStoreWord(segments: map<int, Segment>, address: bv32, value: bv32): map<int, Segment> {
    var sa := SegmentAddress(address);
    segments[sa := MemorySegment.StoreWord(SegmentAt(segments, sa), address, value)]
  }

  function MapIsWordWritten(segments: map<int, Segment>, address: bv32): (bool, map<int, Segment>) {
    var sa := SegmentAddress(address);
    (MemorySegment.IsWordWritten(SegmentAt(segments, sa), address), segments[sa := SegmentAt(segments, sa)])
  }

  /** Loads a word; the result and the segments do not depend on the cache. */
  function LoadWord(m: Memory, address: bv32): (r: (bv32, Memory))
    ensures r.0 == MapLoadWord(m.segments, address).0
    ensures r.1.segments == MapLoadWord(m.segments, address).1
  {
    var get := GetSegment(m, address);
    var load := MemorySegment.LoadWord(get.0, address);
    (load.0, WriteBack(get.1, SegmentAddress(address), load.1))
  }

  /** Stores a word; the segments do not depend on the cache. */
  function StoreWord(m: Memory, address: bv32, value: bv32): (r: Memory)
    ensures r.segments == MapStoreWord(m.segments, address, value)
  {
    var get := GetSegment(m, address);
    WriteBack(get.1, SegmentAddress(address), MemorySegment.StoreWord(get.0, address, value))
  }

  /** Whether the word has been written; this also creates its segment. */
  function IsWordWritten(m: Memory, address: bv32): (r: (bool, Memory))
    ensures r.0 == MapIsWordWritten(m.segments, address).0
    ensures r.1.segments == MapIsWordWritten(m.segments, address).1
  {
    var get := GetSegment(m, address);
    (MemorySegment.IsWordWritten(get.0, address), get.1)
  }

  /** A stored word is read back. */
  lemma StoreThenLoad(m: Memory, address: bv32, value: bv32)
    ensures LoadWord(StoreWord(m, address, value), address).0 == value
  {
  }

  /**
   * A store does not change what an address in any other slot reads,
   * whether it lies in another segment or in the same one.
   */
  lemma StoreOtherWord(m: Memory, a: bv32, b: bv32, value: bv32)
    requires MemorySegment.Slot(a) != MemorySegment.Slot(b)
    ensures LoadWord(StoreWord(m, a, value), b).0 == LoadWord(m, b).0
  {
    var sa, sb := SegmentAddress(a), SegmentAddress(b);
    var stored := StoreWord(m, a, value);
    if sa == sb {
      SameSegment(a, b);
      MemorySegment.StoreOtherWord(SegmentAt(m.segments, sa), a, b, value);
      assert SegmentAt(stored.segments, sb) == MemorySegment.StoreWord(SegmentAt(m.segments, sa), a, value);
    } else {
      assert SegmentAt(stored.segments, sb) == SegmentAt(m.segments, sb);
    }
  }

  /**
   * Byte addresses of the same slot reach the same word: they load the same
   * value, and a store through one is read back through the other. The
   * bytes of one word share a slot, and so do addresses 0x400 apart in the
   * same segment.
   */
  lemma SameWord(m: Memory, a: bv32, b: bv32, value: bv32)
    requires MemorySegment.Slot(a) == MemorySegment.Slot(b)
    ensures LoadWord(m, a).0 == LoadWord(m, b).0
    ensures LoadWord(StoreWord(m, a, value), b).0 == value
  {
    SameWordPlace(a, b);
    SameWordLoad(m.segments, a, b);
    SameWordStore(m.segments, a, b, value);
  }

  /** A store to byte address 0x0 is read back from byte address 0x400. */
  lemma StoreAliasing(m: Memory, value: bv32)
    ensures LoadWord(StoreWord(m, 0x0, value), 0x400).0 == value
  {
    assert MemorySegment.Slot(0x0) == MemorySegment.Slot(0x400);
    SameWord(m, 0x0, 0x400, value);
  }

  /** The bytes of one word share a slot. */
  lemma SameWordSlot(a: bv32, b: bv32)
    requires a >> 2 == b >> 2
    ensures MemorySegment.Slot(a) == MemorySegment.Slot(b)
  {
  }

  /** Byte addresses of the same slot have the same segment and the same index in it. */
  lemma SameWordPlace(a: bv32, b: bv32)
    requires MemorySegment.Slot(a) == MemorySegment.Slot(b)
    ensures SegmentAddress(a) == SegmentAddress(b)
    ensures MemorySegment.Index(a) == MemorySegment.Index(b)
  {
    MemorySegment.SlotSegment(a, b);
    SameSegmentBits(a, b);
    MemorySegment.IndexSlot(a, b);
  }

  /** Addresses that agree above bit 11 have the same segment address. */
  lemma SameSegmentBits(a: bv32, b: bv32)
    requires a >> 12 == b >> 12
    ensures SegmentAddress(a) == SegmentAddress(b)
  {
    assert SegmentBits(a) == SegmentBits(b);
  }

  lemma SameWordLoad(segments: map<int, Segment>, a: bv32, b: bv32)
    requires SegmentAddress(a) == SegmentAddress(b)
    requires MemorySegment.Index(a) == MemorySegment.Index(b)
    ensures MapLoadWord(segments, a).0 == MapLoadWord(segments, b).0
  {
  }

  lemma SameWordStore(segments: map<int, Segment>, a: bv32, b: bv32, value: bv32)
    requires SegmentAddress(a) == SegmentAddress(b)
    requires MemorySegment.Index(a) == MemorySegment.Index(b)
    ensures MapLoadWord(MapStoreWord(segments, a, value), b).0 == value
  {
  }

  /** Addresses with the same segment address agree above bit 11. */
  lemma SameSegment(a: bv32, b: bv32)
    requires SegmentAddress(a) == SegmentAddress(b)
    ensures a >> 12 == b >> 12
  {
    assert SegmentBits(a) as int as bv20 == SegmentBits(a);
    assert SegmentBits(b) as int as bv20 == SegmentBits(b);
  }

  /**
   * Reading a word twice gives the same value both times, and the second
   * read leaves the segments as the first left them.
   */
  lemma LoadTwice(m: Memory, address: bv32)
    ensures LoadWord(LoadWord(m, address).1, address).0 == LoadWord(m, address).0
    ensures LoadWord(LoadWord(m, address).1, address).1.segments == LoadWord(m, address).1.segments
  {
    MemorySegment.LoadTwice(SegmentAt(m.segments, SegmentAddress(address)), address);
  }

  /** A word that was read is written from then on. */
  lemma LoadMarksWritten(m: Memory, address: bv32)
    ensures IsWordWritten(LoadWord(m, address).1, address).0
  {
  }

  // ---------------------------------------------------------------------
  // Written words
  // ---------------------------------------------------------------------


  /** The written word counts of the segments at `keys`, added up. */
  function SumWritten(segments: map<int, Segment>, keys: seq<int>): nat {
    if |keys| == 0 then 0
    else
      SumWritten(segments, keys[..|keys| - 1])
      + MemorySegment.CountWritten(SegmentAt(segments, keys[|keys| - 1]))
  }

  /** Word `i` of the segment at `sa` exists and has been written. */
  predicate WrittenWord(segments: map<int, Segment>, sa: int, i: int) {
    && sa in segments && 0 <= sa < NumSegments
    && 0 <= i < MemorySegment.NumWords && segments[sa][i].Some?
  }

  /** The address recovered for word `i` of the segment at `sa`. */
  function Recovered(sa: int, i: int): bv32
    requires 0 <= sa < NumSegments && 0 <= i < MemorySegment.NumWords
  {
    RecoverWordAddress(sa as bv32, i as bv32)
  }

  /** `x` is recovered from some written word. */
  ghost predicate FromWrittenWord(segments: map<int, Segment>, x: bv32) {
    exists sa, i :: WrittenWord(segments, sa, i) && x == Recovered(sa, i)
  }

  /**
   * The recovered addresses of all written words, segment by segment in
   * the order `keys`: the iteration order of the Java hash map's key set,
   * which lists every segment address once.
   */
  method WrittenWordAddresses(m: Memory, keys: seq<int>) returns (r: seq<bv32>)
    requires forall k :: k in keys <==> k in m.segments
    requires forall p, q :: 0 <= p < q < |keys| ==> keys[p] != keys[q]
    ensures |r| == SumWritten(m.segments, keys)
    ensures forall sa, i :: WrittenWord(m.segments, sa, i) ==> Recovered(sa, i) in r
    ensures forall x :: x in r ==> FromWrittenWord(m.segments, x)
  {
    r := [];
    var j := 0;
    while j < |keys|
      invariant 0 <= j <= |keys|
      invariant |r| == SumWritten(m.segments, keys[..j])
      invariant forall sa, i :: sa in keys[..j] && WrittenWord(m.segments, sa, i) ==> Recovered(sa, i) in r
      invariant forall x :: x in r ==> FromWrittenWord(m.segments, x)
    {
      var sa := keys[j];
      var indices := MemorySegment.WrittenAddresses(m.segments[sa]);
      var before := r;
      r := AppendRecovered(m.segments, sa, indices, r);
      assert keys[..j + 1][..j] == keys[..j];
      forall s, i | s in keys[..j + 1] && WrittenWord(m.segments, s, i)
        ensures Recovered(s, i) in r
      {
        if s != sa {
          assert s in keys[..j];
        } else {
          assert i in indices;
          var k :| 0 <= k < |indices| && indices[k] == i;
        }
      }
      j := j + 1;
    }
    assert keys[..|keys|] == keys;
  }

  /** Appends to `r0` the recovered addresses of the written words `indices` of the segment at `sa`. */
  method AppendRecovered(segments: map<int, Segment>, sa: int, indices: seq<nat>, r0: seq<bv32>) returns (r: seq<bv32>)
    requires 0 <= sa < NumSegments
    requires forall k :: 0 <= k < |indices| ==> indices[k] < MemorySegment.NumWords
    requires forall k :: 0 <= k < |indices| ==> WrittenWord(segments, sa, indices[k])
    ensures |r| == |r0| + |indices|
    ensures forall x :: x in r0 ==> x in r
    ensures forall k :: 0 <= k < |indices| ==> Recovered(sa, indices[k]) in r
    ensures forall x :: x in r ==> x in r0 || FromWrittenWord(segments, x)
  {
    r := r0;
    var n := 0;
    while n < |indices|
      invariant 0 <= n <= |indices|
      invariant |r| == |r0| + n
      invariant forall x :: x in r0 ==> x in r
      invariant forall k :: 0 <= k < n ==> Recovered(sa, indices[k]) in r
      invariant forall x :: x in r ==> x in r0 || FromWrittenWord(segments, x)
    {
      assert WrittenWord(segments, sa, indices[n]);
      r := r + [Recovered(sa, indices[n])];
      n := n + 1;
    }
  }
}
