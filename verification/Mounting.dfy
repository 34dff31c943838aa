/** Mounting: how the fields of a boot sector describe a volume (section 3 of the Microsoft FAT
    Specification, August 2005), and what a medium must hold for the driver to work on it. */
module Mounting {
  import opened Bytes
  import opened Strides
  import opened FatTable
  import opened DiskOps

  predicate HasSignature(b: Sector) { b[510] == 0x55 && b[511] == 0xAA }

  /** The geometry that the driver computes, in 32-bit arithmetic, for a medium of n clusters. */
  function BootGeometry(b: Sector, n: nat): Geometry {
    var dataStart := (Le16(b, 14) + Stride(Le32(b, 36), b[16])) % 0x1_0000_0000;
    Geometry(b[13], Le16(b, 14), Le32(b, 36), Le32(b, 44), dataStart, n)
  }

  /** Number of sectors that a volume of n clusters takes: reserved ones, all copies of the FAT, and
      the clusters. */
  function VolumeSize(b: Sector, n: nat): nat {
    Le16(b, 14) + Stride(Le32(b, 36), b[16]) + Stride(b[13], n)
  }

  /** The fields are those of a FAT32 volume with n clusters on a medium of `size` sectors. */
  predicate ProperBoot(b: Sector, n: nat, size: nat) {
    && HasSignature(b) && Le16(b, 11) == 512
    && 1 <= b[13] && 1 <= Le16(b, 14) && 1 <= b[16]
    && n + 2 <= Le32(b, 36) * 128 && n + 2 <= 0x0FFF_FFF0
    && VolumeSize(b, n) <= size && VolumeSize(b, n) < U32
  }

  /** On such a medium the driver computes a geometry whose arithmetic does not wrap and whose
      clusters all exist: they end where the volume ends. */
  lemma ProperBootFits(d: Disk, n: nat)
    requires d != [] && ProperBoot(d[0], n, |d|)
    ensures Fits(BootGeometry(d[0], n), d)
    ensures BootGeometry(d[0], n).dataStart + Stride(d[0][13], n) == VolumeSize(d[0], n)
  {
    StrideMonotone(Le32(d[0], 36), 0, d[0][16]);
  }

  /** The device holds a well-formed volume of n clusters whose root directory has that chain. */
  ghost predicate HoldsVolume(d: Disk, n: nat, chain: seq<nat>, unowned: set<nat>) {
    d != [] && Le16(d[0], 11) == 512 && GoodDisk(BootGeometry(d[0], n), d, chain, unowned)
  }

  /** A freshly formatted volume is one. */
  lemma FormattedHoldsVolume(d: Disk, n: nat)
    requires d != [] && ProperBoot(d[0], n, |d|) && Formatted(BootGeometry(d[0], n), d)
    ensures HoldsVolume(d, n, [BootGeometry(d[0], n).rootCluster], {})
  {
    FormattedIsGood(BootGeometry(d[0], n), d);
  }
}
