/** The Xbox address-range table and the flag tests on it (src/common/AddressRanges.cpp).
    An `unsigned int` flag mask is the set of its bit positions: `a & b` is `a * b`,
    `a & ~b` is `a - b`, and `a & b` is non-zero when some bit is in both. */
module AddressRanges {
  type Flag = b: nat | b < 32
  type Flags = set<Flag>

  const MAY_FAIL: Flag := 0
  const SYSTEM_XBOX: Flag := 1
  const SYSTEM_DEVKIT: Flag := 2
  const SYSTEM_CHIHIRO: Flag := 3
  const SYSTEM_ALL: Flags := {SYSTEM_XBOX, SYSTEM_DEVKIT, SYSTEM_CHIHIRO}
  const SYSTEM_128MB: Flags := {SYSTEM_DEVKIT, SYSTEM_CHIHIRO}

  const BLOCK_SIZE := 0x1_0000
  const ADDRESS_LIMIT := 0x1_0000_0000

  const PHYSICAL_MAP1_BASE := 0x8000_0000
  const PHYSICAL_MAP2_BASE := 0x8400_0000
  const DEVKIT_MEMORY_BASE := 0xB000_0000
  const SYSTEM_MEMORY_BASE := 0xD000_0000
  const TILED_MEMORY_BASE := 0xF000_0000
  const TILED_MEMORY2_BASE := 0xF400_0000

  const BLOCK_REGION_DEVKIT_INDEX_BEGIN := 0
  const BLOCK_REGION_DEVKIT_INDEX_END := 4096
  const BLOCK_REGION_SYSTEM_INDEX_BEGIN := 4096
  const BLOCK_REGION_SYSTEM_INDEX_END := 12288

  datatype Range = Range(start: nat, size: nat, flags: Flags)

  type Table = seq<Range>

  predicate Matches(r: Range, flags: Flags) {
    exists f | f in r.flags :: f in flags
  }

  predicate IsOptional(r: Range) {
    Matches(r, {MAY_FAIL})
  }

  function SystemFlags(r: Range): Flags {
    r.flags * SYSTEM_ALL
  }

  /** Ranges that are mapped as one file view instead of block by block. */
  predicate Mapped(r: Range) {
    r.start in {PHYSICAL_MAP1_BASE, PHYSICAL_MAP2_BASE, TILED_MEMORY_BASE, TILED_MEMORY2_BASE}
  }

  /** Ranges whose blocks are recorded in the reservation bitmap. */
  predicate Tracked(r: Range) {
    r.start in {DEVKIT_MEMORY_BASE, SYSTEM_MEMORY_BASE}
  }

  function FirstIndex(r: Range): nat {
    if r.start == SYSTEM_MEMORY_BASE then BLOCK_REGION_SYSTEM_INDEX_BEGIN
    else BLOCK_REGION_DEVKIT_INDEX_BEGIN
  }

  function EndIndex(r: Range): nat {
    if r.start == SYSTEM_MEMORY_BASE then BLOCK_REGION_SYSTEM_INDEX_END
    else BLOCK_REGION_DEVKIT_INDEX_END
  }

  /** How many units (64 KiB blocks, or one mapped view) the host is asked for. */
  function UnitCount(r: Range): nat {
    if Mapped(r) then 1 else (r.size + BLOCK_SIZE - 1) / BLOCK_SIZE
  }

  /** The address at which unit `k` of a range starts. */
  function Unit(r: Range, k: nat): nat {
    r.start + k * BLOCK_SIZE
  }

  ghost function Units(r: Range, n: nat): set<nat> {
    set k | 0 <= k < n :: Unit(r, k)
  }

  ghost function Blocks(r: Range): set<nat> {
    Units(r, UnitCount(r))
  }

  /** The address whose reservation bit `k` of the bitmap stands for. */
  function BitAddress(k: nat): nat {
    if k < BLOCK_REGION_DEVKIT_INDEX_END then DEVKIT_MEMORY_BASE + k * BLOCK_SIZE
    else SYSTEM_MEMORY_BASE + (k - BLOCK_REGION_SYSTEM_INDEX_BEGIN) * BLOCK_SIZE
  }

  /** A range the bitmap has room for, on the host's allocation granularity. */
  ghost predicate ValidRange(r: Range) {
    && r.start % BLOCK_SIZE == 0
    && 0 < r.size < 0x8000_0000
    && r.start + r.size <= ADDRESS_LIMIT
    && r.flags <= {MAY_FAIL} + SYSTEM_ALL
    && (Tracked(r) ==> FirstIndex(r) + UnitCount(r) <= EndIndex(r))
    && (!Tracked(r) ==> forall k :: 0 <= k < BLOCK_REGION_SYSTEM_INDEX_END ==> BitAddress(k) !in Blocks(r))
  }

  ghost predicate Apart(r: Range, s: Range) {
    r.start + r.size <= s.start || s.start + s.size <= r.start
  }

  /** Any table of disjoint, well-formed ranges; the built-in one is an instance. */
  ghost predicate ValidTable(t: Table) {
    && (forall i :: 0 <= i < |t| ==> ValidRange(t[i]))
    && (forall i, j :: 0 <= i < j < |t| ==> Apart(t[i], t[j]))
  }

  const XboxAddressRanges: Table := [
    Range(0x0001_0000, 0x03FF_0000, SYSTEM_ALL + {MAY_FAIL}),
    Range(0x0400_0000, 0x0400_0000, SYSTEM_128MB + {MAY_FAIL}),
    Range(PHYSICAL_MAP1_BASE, 0x0400_0000, SYSTEM_ALL),
    Range(PHYSICAL_MAP2_BASE, 0x0400_0000, SYSTEM_128MB),
    Range(DEVKIT_MEMORY_BASE, 0x1000_0000, {SYSTEM_DEVKIT}),
    Range(0xC000_0000, 0x0040_0000, SYSTEM_ALL),
    Range(SYSTEM_MEMORY_BASE, 0x2000_0000, SYSTEM_ALL + {MAY_FAIL}),
    Range(TILED_MEMORY_BASE, 0x0400_0000, SYSTEM_ALL),
    Range(TILED_MEMORY2_BASE, 0x0400_0000, SYSTEM_128MB),
    Range(0xFD00_0000, 0x0070_0000, SYSTEM_ALL),
    Range(0xFD70_0000, 0x0010_0000, SYSTEM_ALL),
    Range(0xFD80_0000, 0x0080_0000, SYSTEM_ALL),
    Range(0xFE80_0000, 0x0008_0000, SYSTEM_ALL),
    Range(0xFEC0_0000, 0x0000_1000, SYSTEM_ALL),
    Range(0xFED0_0000, 0x0000_1000, SYSTEM_ALL),
    Range(0xFEF0_0000, 0x0000_0400, SYSTEM_ALL),
    Range(0xFF00_0000, 0x0040_0000, SYSTEM_ALL),
    Range(0xFF40_0000, 0x0040_0000, SYSTEM_ALL),
    Range(0xFF80_0000, 0x0040_0000, SYSTEM_ALL + {MAY_FAIL}),
    Range(0xFFC0_0000, 0x0040_0000, SYSTEM_ALL + {MAY_FAIL})
  ]

  /** Blocks of two disjoint ranges never start at the same address. */
  lemma BlocksDisjoint(r: Range, s: Range)
    requires ValidRange(r) && ValidRange(s) && Apart(r, s)
    ensures Blocks(r) !! Blocks(s)
  {
    forall a | a in Blocks(r)
      ensures a !in Blocks(s)
    {
      BlockBounds(r, a);
      if a in Blocks(s) {
        BlockBounds(s, a);
      }
    }
  }

  lemma BlockBounds(r: Range, a: nat)
    requires ValidRange(r) && a in Blocks(r)
    ensures r.start <= a < r.start + r.size
  {
    var k :| 0 <= k < UnitCount(r) && a == Unit(r, k);
  }

  /** A range with addresses in neither bitmap region owns no bitmap block. */
  lemma OutsideRegions(r: Range)
    requires r.start % BLOCK_SIZE == 0 && r.size > 0
    requires r.start + r.size <= DEVKIT_MEMORY_BASE
      || (DEVKIT_MEMORY_BASE + 0x1000_0000 <= r.start && r.start + r.size <= SYSTEM_MEMORY_BASE)
      || SYSTEM_MEMORY_BASE + 0x2000_0000 <= r.start
    ensures forall k :: 0 <= k < BLOCK_REGION_SYSTEM_INDEX_END ==> BitAddress(k) !in Blocks(r)
  {
    forall k | 0 <= k < BLOCK_REGION_SYSTEM_INDEX_END
      ensures BitAddress(k) !in Blocks(r)
    {
      if BitAddress(k) in Blocks(r) {
        var m :| 0 <= m < UnitCount(r) && BitAddress(k) == Unit(r, m);
      }
    }
  }

  lemma BuiltInRangesValid()
    ensures forall i :: 0 <= i < |XboxAddressRanges| ==> ValidRange(XboxAddressRanges[i])
  {
    var t := XboxAddressRanges;
    forall i | 0 <= i < |t|
      ensures ValidRange(t[i])
    {
      if !Tracked(t[i]) {
        OutsideRegions(t[i]);
      }
    }
  }

  lemma BuiltInRangesAscend()
    ensures var t := XboxAddressRanges;
      forall i :: 0 <= i < |t| - 1 ==> t[i].start + t[i].size <= t[i + 1].start
  {
  }

  /** The built-in table: its ranges fit the bitmap and are pairwise disjoint. */
  lemma {:induction false} BuiltInTableValid()
    ensures ValidTable(XboxAddressRanges)
  {
    var t := XboxAddressRanges;
    BuiltInRangesValid();
    BuiltInRangesAscend();
    forall i, j | 0 <= i < j < |t|
      ensures Apart(t[i], t[j])
    {
      Ascending(t, i, j);
    }
  }

  lemma {:induction false} Ascending(t: Table, i: nat, j: nat)
    requires i < j < |t|
    requires forall i :: 0 <= i < |t| - 1 ==> t[i].start + t[i].size <= t[i + 1].start
    ensures t[i].start + t[i].size <= t[j].start
    decreases j
  {
    if i == j - 1 {
    } else {
      Ascending(t, i, j - 1);
    }
  }
}
