/**
 * The partitioning fabfiles shipped with fabrix: GPT layout arithmetic in
 * sectors for mirrored disks (`Parted`), the fixed layout `create_partitions`
 * builds, and the two safety probes run before touching the disks.
 *
 * The two fabfiles carry the same `Parted` class; they differ in the devices
 * and in the probes, which are modelled once per variant. The output of
 * `mount` and `lsblk` is a parameter, and the `parted` commands are returned
 * instead of being run.
 */
module Partitions {
  import opened Results
  import opened Text

  // ---------------------------------------------------------------------------
  // mdraid and LVM metadata
  // ---------------------------------------------------------------------------

  /** The starting headroom, 128 MiB in 512-byte sectors. */
  const MaxHeadroom: nat := 128 * 1024 * 2

  /** One MiB in sectors: the alignment unit of the metadata. */
  const OneMeg: nat := 2 * 1024

  /** Space LVM reserves on its physical volume, in sectors. */
  const LvmMetadataSectors: nat := 2048

  /** `headroom` after `k` halvings: `MaxHeadroom >> k`. */
  function Shifted(k: nat): (h: nat)
    ensures h <= MaxHeadroom
  {
    if k == 0 then MaxHeadroom else Shifted(k - 1) / 2
  }

  function Pow2(n: nat): (p: nat)
    ensures p > 0
  {
    if n == 0 then 1 else 2 * Pow2(n - 1)
  }

  /** The headroom values are the powers of two from 2^18 down, then zero. */
  lemma {:induction false} ShiftedPower(k: nat)
    ensures Shifted(k) == if k <= 18 then Pow2(18 - k) else 0
  {
    if k == 0 {
      assert Pow2(18) == 262144 by {
        assert Pow2(2) == 4;
        assert Pow2(6) == 64;
        assert Pow2(10) == 1024;
        assert Pow2(14) == 16384;
      }
    } else {
      ShiftedPower(k - 1);
      if k <= 18 {
        assert Pow2(19 - k) == 2 * Pow2(18 - k);
      }
    }
  }

  /** One halving back from a non-zero headroom doubles it exactly. */
  lemma ShiftedHalves(k: nat)
    requires k > 0 && Shifted(k) > 0
    ensures Shifted(k - 1) == 2 * Shifted(k)
  {
    ShiftedPower(k);
    ShiftedPower(k - 1);
    assert Pow2(19 - k) == 2 * Pow2(18 - k);
  }

  /** How many halvings, from `k` on, until `headroom << 10` no longer exceeds the data size. */
  function Halvings(size: int, k: nat): (j: nat)
    requires size > 0
    ensures k <= j
    ensures Shifted(j) * 1024 <= size
    ensures forall i :: k <= i < j ==> Shifted(i) * 1024 > size
    decreases Shifted(k)
  {
    if Shifted(k) * 1024 > size then Halvings(size, k + 1) else k
  }

  /** The headroom the loop settles on: at most 0.1% of the data (1/1024 of it). */
  function Headroom(size: int): (h: nat)
    requires size > 0
    ensures h * 1024 <= size
    ensures h <= MaxHeadroom
    ensures h == MaxHeadroom || size < (if h == 0 then 1 else 2 * h) * 1024
  {
    var j := Halvings(size, 0);
    assert j > 0 ==> Shifted(j - 1) * 1024 > size;
    assert j > 0 && Shifted(j) > 0 ==> Shifted(j - 1) == 2 * Shifted(j) by {
      if j > 0 && Shifted(j) > 0 {
        ShiftedHalves(j);
      }
    }
    Shifted(j)
  }

  /**
   * `_mdraid_metadata_size_in_sectors`: the headroom plus the 12 KiB
   * superblock area, rounded down to whole MiB but never below one MiB.
   */
  function MdraidMetadata(size: int): (r: int)
    requires size > 0
    ensures r % OneMeg == 0
    ensures OneMeg <= r <= MaxHeadroom
    ensures r <= 24 + Headroom(size) || r == OneMeg
    ensures 24 + Headroom(size) < r + OneMeg
  {
    var dataOffset := 12 * 2 + Headroom(size);
    RoundDown(dataOffset);
    if dataOffset <= OneMeg then OneMeg else (dataOffset / OneMeg) * OneMeg
  }

  /** Rounding down to whole MiB gives a multiple of one MiB within one MiB below. */
  lemma RoundDown(x: nat)
    ensures (x / OneMeg) * OneMeg % OneMeg == 0
    ensures (x / OneMeg) * OneMeg <= x < (x / OneMeg) * OneMeg + OneMeg
    ensures x <= 24 + MaxHeadroom ==> (x / OneMeg) * OneMeg <= MaxHeadroom
  {
    var q := x / OneMeg;
    assert x == q * OneMeg + x % OneMeg;
    assert (q * OneMeg) % OneMeg == 0 by {
      assert q * OneMeg == OneMeg * q + 0;
    }
    if x <= 24 + MaxHeadroom {
      assert q <= 128;
    }
  }

  /** A headroom value the loop has reached by `k` halvings without stopping is the one `Headroom` names. */
  lemma FirstFit(size: int, k: nat)
    requires size > 0
    requires Shifted(k) * 1024 <= size
    requires forall i :: 0 <= i < k ==> Shifted(i) * 1024 > size
    ensures k == Halvings(size, 0)
    ensures Shifted(k) == Headroom(size)
  {
    var j := Halvings(size, 0);
    if j < k {
      assert false;
    } else if k < j {
      assert false;
    }
  }

  /** The method as written: the halving loop, then the two adjustments to whole MiB. */
  method MdraidMetadataSectors(size: int) returns (r: int)
    requires size > 0
    ensures r == MdraidMetadata(size)
    ensures r % OneMeg == 0 && OneMeg <= r <= MaxHeadroom
  {
    var headroom: nat := 128 * 1024 * 2;
    ghost var k: nat := 0;
    while headroom * 1024 > size
      invariant headroom == Shifted(k)
      invariant forall i :: 0 <= i < k ==> Shifted(i) * 1024 > size
      decreases headroom
    {
      headroom := headroom / 2;
      k := k + 1;
    }
    FirstFit(size, k);
    var dataOffset := 12 * 2 + headroom;
    var oneMeg := 2 * 1024;
    if dataOffset < oneMeg {
      dataOffset := oneMeg;
    }
    if dataOffset > oneMeg {
      dataOffset := (dataOffset / oneMeg) * oneMeg;
    }
    r := dataOffset;
  }

  // ---------------------------------------------------------------------------
  // Parted
  // ---------------------------------------------------------------------------

  /** The first sector a GPT partition may use. */
  const FirstUsable: int := 34

  /** parted's end for "up to the end of the disk", short of the backup GPT. */
  const OpenEnd: int := -34

  /** The offset after an open-ended partition: `2**128 - 1`. */
  const Exhausted: int := 0x1_0000_0000_0000_0000_0000_0000_0000_0000 - 1

  /** A planned partition: its 1-based number, first and last sector, and description. */
  datatype Partition = Partition(index: int, start: int, end: int, description: string)

  /** A `Parted` object: the mirrored devices, the next free sector, the next number, the plan. */
  datatype Parted = Parted(devices: seq<string>, offset: int, partIndex: int, partitions: seq<Partition>)

  function NewParted(devices: seq<string>): (p: Parted)
    ensures p.devices == devices && p.partitions == []
    ensures p.offset == FirstUsable && p.partIndex == 1
  {
    Parted(devices, FirstUsable, 1, [])
  }

  /**
   * The sectors a finite `mkpart` takes: the data plus the metadata of the
   * layers on top. Each metadata helper asserts the size it is given is
   * positive.
   */
  function Footprint(size: int, mdraid: bool, lvm: bool): (r: Result<int>)
    ensures r.Err? ==> r == Raise("AssertionError")
    ensures !mdraid && !lvm ==> r == Ok(size)
    ensures mdraid || lvm ==> (r.Ok? <==> size > 0)
    ensures r.Ok? && mdraid ==> r.value == size + MdraidMetadata(size) + (if lvm then LvmMetadataSectors else 0)
    ensures r.Ok? && !mdraid && lvm ==> r.value == size + LvmMetadataSectors
  {
    var withRaid :-
      if !mdraid then Ok(size)
      else if size > 0 then Ok(size + MdraidMetadata(size))
      else Raise("AssertionError");
    if !lvm then Ok(withRaid)
    else if withRaid > 0 then Ok(withRaid + LvmMetadataSectors)
    else Raise("AssertionError")
  }

  /**
   * `Parted.mkpart`: plans the next partition at the current offset. A size
   * of -1 runs to the end of the disk; any other size is a finite partition
   * of `Footprint` sectors.
   */
  function Mkpart(p: Parted, description: string, size: int, mdraid: bool, lvm: bool): (r: Result<Parted>)
    ensures size == -1 ==> r.Ok?
    ensures size != -1 ==> (r.Ok? <==> Footprint(size, mdraid, lvm).Ok?)
    ensures r.Err? ==> r == Raise("AssertionError")
    ensures r.Ok? ==> r.value.devices == p.devices && r.value.partIndex == p.partIndex + 1
    ensures r.Ok? ==> |r.value.partitions| == |p.partitions| + 1 && r.value.partitions[..|p.partitions|] == p.partitions
    ensures r.Ok? ==> var last := r.value.partitions[|p.partitions|];
      last.index == p.partIndex && last.start == p.offset && last.description == description
    ensures r.Ok? && size == -1 ==> r.value.partitions[|p.partitions|].end == OpenEnd && r.value.offset == Exhausted
    ensures r.Ok? && size != -1 ==> var last := r.value.partitions[|p.partitions|];
      last.end - last.start + 1 == Footprint(size, mdraid, lvm).value && r.value.offset == last.end + 1
  {
    if size == -1 then
      Ok(p.(offset := Exhausted, partIndex := p.partIndex + 1,
            partitions := p.partitions + [Partition(p.partIndex, p.offset, OpenEnd, description)]))
    else
      var sectors :- Footprint(size, mdraid, lvm);
      var part := Partition(p.partIndex, p.offset, p.offset + sectors - 1, description);
      Ok(p.(offset := p.offset + sectors, partIndex := p.partIndex + 1, partitions := p.partitions + [part]))
  }

  /**
   * A plan of finite partitions: numbered 1, 2, … in order, each at least
   * one sector long, each starting right after the one before, the first at
   * sector 34, and the offset just past the last.
   */
  ghost predicate Contiguous(p: Parted)
  {
    var parts := p.partitions;
    && p.partIndex == |parts| + 1
    && (forall i :: 0 <= i < |parts| ==> parts[i].index == i + 1 && parts[i].start <= parts[i].end)
    && (forall i :: 0 < i < |parts| ==> parts[i].start == parts[i - 1].end + 1)
    && (|parts| == 0 ==> p.offset == FirstUsable)
    && (|parts| > 0 ==> parts[0].start == FirstUsable && p.offset == parts[|parts| - 1].end + 1)
  }

  /** A fresh `Parted` is a contiguous, empty plan. */
  lemma NewPartedContiguous(devices: seq<string>)
    ensures Contiguous(NewParted(devices))
  {
  }

  /** Every finite `mkpart` of a positive size keeps the plan contiguous. */
  lemma MkpartContiguous(p: Parted, description: string, size: int, mdraid: bool, lvm: bool)
    requires Contiguous(p) && size > 0
    ensures Mkpart(p, description, size, mdraid, lvm).Ok?
    ensures Contiguous(Mkpart(p, description, size, mdraid, lvm).value)
  {
    var q := Mkpart(p, description, size, mdraid, lvm).value;
    assert forall i :: 0 <= i < |p.partitions| ==> q.partitions[i] == p.partitions[i];
  }

  /** In a contiguous plan, an earlier partition ends before a later one starts. */
  lemma {:induction false} ContiguousDisjoint(p: Parted, i: int, j: int)
    requires Contiguous(p) && 0 <= i < j < |p.partitions|
    ensures p.partitions[i].end < p.partitions[j].start
    decreases j - i
  {
    if i + 1 < j {
      ContiguousDisjoint(p, i, j - 1);
    }
  }

  /** The open-ended partition starts right after the finite ones and takes the next number. */
  lemma CloseContiguous(p: Parted, description: string)
    requires Contiguous(p)
    ensures var q := Mkpart(p, description, -1, false, false).value;
      var last := q.partitions[|p.partitions|];
      last.index == |p.partitions| + 1 && last.end == OpenEnd
      && (|p.partitions| == 0 ==> last.start == FirstUsable)
      && (|p.partitions| > 0 ==> last.start == p.partitions[|p.partitions| - 1].end + 1)
  {
  }

  // ---------------------------------------------------------------------------
  // check_alignment and the parted commands
  // ---------------------------------------------------------------------------

  /** One line of the alignment report: partition `index` of `device`. */
  datatype Alignment = Alignment(device: string, index: int, aligned: bool)

  /** The report for one device, one entry per planned partition. */
  function AlignmentOf(device: string, parts: seq<Partition>, align: int): (r: seq<Alignment>)
    requires align != 0
    ensures |r| == |parts|
    ensures forall i :: 0 <= i < |parts| ==>
      r[i].device == device && r[i].index == parts[i].index && (r[i].aligned <==> parts[i].start % align == 0)
  {
    if |parts| == 0 then []
    else [Alignment(device, parts[0].index, parts[0].start % align == 0)] + AlignmentOf(device, parts[1..], align)
  }

  /**
   * `Parted.check_alignment`: for every device in turn, whether each
   * partition starts on a multiple of `align` sectors; one report per
   * device. Python's `%` and this one agree on whether the remainder is zero
   * for any non-zero divisor; a zero divisor fails at the first partition.
   */
  function CheckAlignment(p: Parted, align: int): (r: Result<seq<seq<Alignment>>>)
    ensures r.Err? <==> align == 0 && |p.devices| > 0 && |p.partitions| > 0
    ensures r.Err? ==> r == Raise("ZeroDivisionError")
    ensures r.Ok? ==> |r.value| == |p.devices|
    ensures r.Ok? ==> forall d :: 0 <= d < |p.devices| ==> |r.value[d]| == |p.partitions|
    ensures r.Ok? ==> forall d, i :: 0 <= d < |p.devices| && 0 <= i < |p.partitions| ==>
      r.value[d][i].device == p.devices[d] && r.value[d][i].index == p.partitions[i].index
      && (r.value[d][i].aligned <==> p.partitions[i].start % align == 0)
  {
    if |p.devices| == 0 then Ok([])
    else if |p.partitions| == 0 then Ok(seq(|p.devices|, _ => []))
    else if align == 0 then Raise("ZeroDivisionError")
    else Ok(seq(|p.devices|, d requires 0 <= d < |p.devices| => AlignmentOf(p.devices[d], p.partitions, align)))
  }

  /** The `mkpart` command for one partition of one device. */
  function MkpartCommand(device: string, part: Partition): string
  {
    "parted -s /dev/" + device + " -a min -- mkpart primary "
      + IntToString(part.start) + "s " + IntToString(part.end) + "s"
  }

  /** The commands of one device after another. */
  function Concat(groups: seq<seq<string>>): (r: seq<string>)
    ensures |groups| > 0 ==> r == groups[0] + Concat(groups[1..])
  {
    if |groups| == 0 then [] else groups[0] + Concat(groups[1..])
  }

  /**
   * `Parted._commit`: a GPT label on every device first, then the planned
   * partitions device by device, each at the same sectors on every device.
   */
  function Commit(p: Parted): (commands: seq<string>)
    ensures |commands| >= |p.devices|
    ensures forall d :: 0 <= d < |p.devices| ==> commands[d] == "parted -s /dev/" + p.devices[d] + " mklabel gpt"
    ensures commands[|p.devices|..] == Concat(seq(|p.devices|, d requires 0 <= d < |p.devices| =>
      seq(|p.partitions|, i requires 0 <= i < |p.partitions| => MkpartCommand(p.devices[d], p.partitions[i]))))
  {
    var labels := seq(|p.devices|, d requires 0 <= d < |p.devices| => "parted -s /dev/" + p.devices[d] + " mklabel gpt");
    var parts := seq(|p.devices|, d requires 0 <= d < |p.devices| =>
      seq(|p.partitions|, i requires 0 <= i < |p.partitions| => MkpartCommand(p.devices[d], p.partitions[i])));
    assert (labels + Concat(parts))[|p.devices|..] == Concat(parts);
    labels + Concat(parts)
  }

  // ---------------------------------------------------------------------------
  // create_partitions
  // ---------------------------------------------------------------------------

  /** One GiB and 32 GiB in 512-byte sectors. */
  const BootSectors: int := 2097152
  const LvmSectors: int := 67108864

  /** The plan `create_partitions` commits: bios_grub, /boot on md0, LVM on md1, the rest for zfs. */
  function CreatePartitions(devices: seq<string>): (r: Result<Parted>)
  {
    var p := NewParted(devices);
    var p :- Mkpart(p, "for bios_grub", 2014, false, false);
    var p :- Mkpart(p, "for  /dev/md0", BootSectors, true, false);
    var p :- Mkpart(p, "for  /dev/md1", LvmSectors, true, true);
    Mkpart(p, "for zfs zpool", -1, false, false)
  }

  lemma ShiftedValues()
    ensures Shifted(0) == 262144 && Shifted(1) == 131072 && Shifted(2) == 65536 && Shifted(3) == 32768
    ensures Shifted(4) == 16384 && Shifted(5) == 8192 && Shifted(6) == 4096 && Shifted(7) == 2048
  {
    assert Shifted(1) == 131072;
    assert Shifted(2) == 65536;
    assert Shifted(3) == 32768;
    assert Shifted(4) == 16384;
    assert Shifted(5) == 8192;
    assert Shifted(6) == 4096;
  }

  /** The md0 and md1 metadata sizes the layout uses: 1 MiB and 32 MiB. */
  lemma LayoutMetadata()
    ensures MdraidMetadata(BootSectors) == 2048
    ensures MdraidMetadata(LvmSectors) == 65536
  {
    ShiftedValues();
    FirstFit(BootSectors, 7);
    FirstFit(LvmSectors, 2);
  }

  /** The partitions `create_partitions` plans, in sectors. */
  const BiosGrub := Partition(1, 34, 2047, "for bios_grub")
  const Boot := Partition(2, 2048, 2101247, "for  /dev/md0")
  const Lvm := Partition(3, 2101248, 69277695, "for  /dev/md1")
  const Zpool := Partition(4, 69277696, OpenEnd, "for zfs zpool")

  lemma BiosGrubStep(devices: seq<string>)
    ensures Mkpart(NewParted(devices), "for bios_grub", 2014, false, false) == Ok(Parted(devices, 2048, 2, [BiosGrub]))
  {
  }

  lemma BootStep(devices: seq<string>)
    ensures Mkpart(Parted(devices, 2048, 2, [BiosGrub]), "for  /dev/md0", BootSectors, true, false)
         == Ok(Parted(devices, 2101248, 3, [BiosGrub, Boot]))
  {
    LayoutMetadata();
    assert Footprint(BootSectors, true, false) == Ok(2099200);
    assert [BiosGrub] + [Boot] == [BiosGrub, Boot];
  }

  lemma LvmStep(devices: seq<string>)
    ensures Mkpart(Parted(devices, 2101248, 3, [BiosGrub, Boot]), "for  /dev/md1", LvmSectors, true, true)
         == Ok(Parted(devices, 69277696, 4, [BiosGrub, Boot, Lvm]))
  {
    LayoutMetadata();
    assert Footprint(LvmSectors, true, true) == Ok(67176448);
    assert [BiosGrub, Boot] + [Lvm] == [BiosGrub, Boot, Lvm];
  }

  /** The exact sectors of the plan, the same on every device. */
  lemma CreatePartitionsLayout(devices: seq<string>)
    ensures CreatePartitions(devices).Ok?
    ensures CreatePartitions(devices).value.devices == devices
    ensures CreatePartitions(devices).value.partitions == [BiosGrub, Boot, Lvm, Zpool]
  {
    BiosGrubStep(devices);
    BootStep(devices);
    LvmStep(devices);
  }

  /** Only the bios_grub partition is off the 1 MiB grid; partitions 2 to 4 are aligned on every device. */
  lemma CreatePartitionsAligned(devices: seq<string>)
    ensures CreatePartitions(devices).Ok?
    ensures CheckAlignment(CreatePartitions(devices).value, 2048).Ok?
    ensures var report := CheckAlignment(CreatePartitions(devices).value, 2048).value;
      forall d, i :: 0 <= d < |report| && 0 <= i < |report[d]| ==> (report[d][i].aligned <==> report[d][i].index != 1)
  {
    CreatePartitionsLayout(devices);
    PlanAligned();
  }

  lemma PlanAligned()
    ensures var parts := [BiosGrub, Boot, Lvm, Zpool];
      forall i :: 0 <= i < |parts| ==> (parts[i].start % 2048 == 0 <==> parts[i].index != 1)
  {
    assert 34 % 2048 == 34;
    assert 2101248 % 2048 == 0 by {
      assert 2101248 == 1026 * 2048;
    }
    assert 69277696 % 2048 == 0 by {
      assert 69277696 == 33827 * 2048;
    }
  }

  /** The devices of each fabfile. */
  const TwoDevices: seq<string> := ["sda", "sdb"]
  const SixDevices: seq<string> := ["sda", "sdb", "sdc", "sdd", "sde", "sdf"]

  // ---------------------------------------------------------------------------
  // Safety probes
  // ---------------------------------------------------------------------------

  /** Root file systems that mark a LiveCD: overlay in the first fabfile, also aufs in the second. */
  const OverlayRoot: string := "overlay on / type overlay"
  const AufsRoot: string := "aufs on / type aufs"

  /** Whether a line of `mount` output starts with one of `roots`. */
  predicate MountsRoot(line: string, roots: seq<string>)
  {
    exists j :: 0 <= j < |roots| && StartsWith(line, roots[j])
  }

  /** `is_live_cd`: scans the lines of `mount` for a LiveCD root. */
  method IsLiveCdAmong(mount: string, roots: seq<string>) returns (live: bool)
    ensures live <==> exists i :: 0 <= i < |Split(mount, '\n')| && MountsRoot(Split(mount, '\n')[i], roots)
  {
    var lines := Split(mount, '\n');
    var i := 0;
    while i < |lines|
      invariant 0 <= i <= |lines|
      invariant forall k :: 0 <= k < i ==> !MountsRoot(lines[k], roots)
    {
      var j := 0;
      while j < |roots|
        invariant 0 <= j <= |roots|
        invariant forall m :: 0 <= m < j ==> !StartsWith(lines[i], roots[m])
      {
        if StartsWith(lines[i], roots[j]) {
          assert MountsRoot(lines[i], roots);
          assert exists k :: 0 <= k < |Split(mount, '\n')| && MountsRoot(Split(mount, '\n')[k], roots);
          live := true;
          return;
        }
        j := j + 1;
      }
      i := i + 1;
    }
    live := false;
  }

  /** `is_live_cd` of the two-device fabfile: only an overlay root counts. */
  method IsLiveCd(mount: string) returns (live: bool)
    ensures live <==> exists i :: 0 <= i < |Split(mount, '\n')| && StartsWith(Split(mount, '\n')[i], OverlayRoot)
  {
    live := IsLiveCdAmong(mount, [OverlayRoot]);
    assert forall line :: MountsRoot(line, [OverlayRoot]) <==> StartsWith(line, OverlayRoot) by {
      forall line ensures MountsRoot(line, [OverlayRoot]) <==> StartsWith(line, OverlayRoot) {
        if StartsWith(line, OverlayRoot) {
          assert [OverlayRoot][0] == OverlayRoot;
        }
      }
    }
  }

  /** `is_live_cd` of the six-device fabfile: an overlay or an aufs root. */
  method IsLiveCdSix(mount: string) returns (live: bool)
    ensures live <==> exists i :: 0 <= i < |Split(mount, '\n')| &&
                                  (StartsWith(Split(mount, '\n')[i], OverlayRoot) || StartsWith(Split(mount, '\n')[i], AufsRoot))
  {
    var roots := [OverlayRoot, AufsRoot];
    live := IsLiveCdAmong(mount, roots);
    assert forall line :: MountsRoot(line, roots) <==> StartsWith(line, OverlayRoot) || StartsWith(line, AufsRoot) by {
      forall line ensures MountsRoot(line, roots) <==> StartsWith(line, OverlayRoot) || StartsWith(line, AufsRoot) {
        if StartsWith(line, OverlayRoot) {
          assert roots[0] == OverlayRoot;
        }
        if StartsWith(line, AufsRoot) {
          assert roots[1] == AufsRoot;
        }
      }
    }
  }

  /** The stripped `lsblk` lines, in order. */
  function StrippedLines(lines: seq<string>): (r: seq<string>)
    ensures |r| == |lines|
  {
    seq(|lines|, i requires 0 <= i < |lines| => Strip(lines[i], Whitespace))
  }

  /** Whether `lsblk` lists `name`, once its line is stripped. */
  ghost predicate Listed(lsblk: string, name: string)
  {
    name in StrippedLines(Split(lsblk, '\n'))
  }

  /** The set `is_disks_has_no_partitions` collects. */
  function DeviceNames(lsblk: string): (names: set<string>)
    ensures forall x :: x in names <==> Listed(lsblk, x)
  {
    var stripped := StrippedLines(Split(lsblk, '\n'));
    set x | x in stripped
  }

  /**
   * `is_disks_has_no_partitions` of the two-device fabfile: `lsblk` lists
   * exactly `loop0`, `sda` and `sdb`, nothing more and nothing less.
   */
  function IsDisksHasNoPartitions(lsblk: string): (r: bool)
    ensures r <==> (Listed(lsblk, "loop0") && Listed(lsblk, "sda") && Listed(lsblk, "sdb")
                    && forall x :: Listed(lsblk, x) ==> x in {"loop0", "sda", "sdb"})
  {
    DeviceNames(lsblk) == {"loop0", "sda", "sdb"}
  }

  /**
   * `is_disks_has_no_partitions` of the six-device fabfile: apart from an
   * optional `loop0`, `lsblk` lists exactly `sda` to `sdf`.
   */
  function IsDisksHasNoPartitionsSix(lsblk: string): (r: bool)
    ensures r <==> ((forall k :: 0 <= k < |SixDevices| ==> Listed(lsblk, SixDevices[k]))
                    && forall x :: Listed(lsblk, x) ==> x == "loop0" || x in SixDevices)
  {
    var six := {"sda", "sdb", "sdc", "sdd", "sde", "sdf"};
    var names := DeviceNames(lsblk);
    assert forall x :: x in six <==> x in SixDevices;
    RemovedEqual(names, "loop0", six);
    names - {"loop0"} == six
  }

  /** Removing `e` from `a` leaves `b` exactly when `a` holds `b` and nothing else but `e`. */
  lemma RemovedEqual(a: set<string>, e: string, b: set<string>)
    requires e !in b
    ensures a - {e} == b <==> (forall x :: x in b ==> x in a) && (forall x :: x in a ==> x == e || x in b)
  {
  }
}
