/** Directories: 32-byte slots in sectors. */
module Directories {
  import Geometry
  import opened Sectors

  const SLOTS := 16                  // DIR_ENTRIES_PER_SECTOR
  const FREE_SLOT := 0xe5

  /** A directory slot, and a directory sector as its slots. */
  type Slot = s: seq<Byte> | |s| == 32 witness seq(32, (i: int) => 0)
  type DirSector = s: seq<Slot> | |s| == SLOTS witness EmptySlots()

  function EmptySlot(): Slot {
    seq(32, (i: int) => 0)
  }

  function EmptySlots(): (r: seq<Slot>)
    ensures |r| == SLOTS
  {
    seq(SLOTS, (i: int) => EmptySlot())
  }

  function SlotAt(sectors: seq<DirSector>, e: int): Slot
    requires 0 <= e < SLOTS * |sectors|
  {
    sectors[e / SLOTS][e % SLOTS]
  }

  /** Slots are numbered sector by sector. */
  lemma SlotNumber(sectors: seq<DirSector>, q: nat, i: nat)
    requires q < |sectors| && i < 16
    ensures SlotAt(sectors, 16 * q + i) == sectors[q][i]
  {
  }

  predicate IsFree(s: Slot) {
    s[0] == 0 || s[0] == FREE_SLOT
  }

  function EmptySector(): DirSector {
    EmptySlots()
  }

  /** A multiple of `p` other than 0 is at least `p` away from it. */
  lemma FarFromZero(p: int, d: int)
    requires p > 0
    ensures d > 0 ==> p * d >= p
    ensures d < 0 ==> p * d <= -p
  {
    if d > 0 {
      Geometry.ProductMonotone(1, d, p);
    } else if d < 0 {
      Geometry.ProductMonotone(d, -1, p);
    }
  }

  lemma Distribute(p: int, l: int, k: int)
    ensures p * l - p * k == p * (l - k)
  {
  }

  /** Multiples of the cluster size. */
  lemma Multiple(x: int, p: nat, q: int)
    requires 0 < p && x == p * q
    ensures x % p == 0
  {
    Distribute(p, q, x / p);
    FarFromZero(p, q - x / p);
  }

  lemma WholeClusters(n: nat, perCluster: nat)
    requires 0 < perCluster && n % perCluster == 0
    ensures (n + perCluster) % perCluster == 0
  {
    var q := n / perCluster;
    assert n == perCluster * q;
    assert n + perCluster == perCluster * (q + 1);
    Multiple(n + perCluster, perCluster, q + 1);
  }

  lemma NoMultipleBetween(a: nat, b: nat, perCluster: nat)
    requires 0 < perCluster && a % perCluster == 0 && b % perCluster == 0 && a <= b < a + perCluster
    ensures a == b
  {
    var k, l := a / perCluster, b / perCluster;
    Distribute(perCluster, l, k);
    FarFromZero(perCluster, l - k);
  }
}
