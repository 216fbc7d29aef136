/** Which devices share a spindle: base_device of fsck.c, compiled without devfs. */
module FsckDevices {
  import opened Options

  const DEV_PREFIX: string := "/dev/"
  const BASE_MD: string := "/dev/md"

  /** A character of a C string, with its terminator. */
  function At(s: string, i: nat): char
  {
    if i < |s| then s[i] else '\0'
  }

  predicate IsDigit(c: char)
  {
    '0' <= c <= '9'
  }

  predicate IsAlpha(c: char)
  {
    'a' <= c <= 'z' || 'A' <= c <= 'Z'
  }

  /** The first n characters; n does not reach beyond the terminator. */
  function Cut(s: string, n: nat): string
  {
    if n <= |s| then s[..n] else s
  }

  /** The disk that a device is on, if that can be told from its name. */
  function BaseDevice(device: string): (r: Option<string>)
  {
    if !(DEV_PREFIX <= device) then None
    else
      var cp := |DEV_PREFIX|;
      if At(device, cp) == 'm' && At(device, cp + 1) == 'd' then Some(Cut(device, cp + 2))
      else if At(device, cp) == 'r' && At(device, cp + 1) == 'd' && At(device, cp + 2) == '/' then
        (if At(device, cp + 3) != 'c' || !IsDigit(At(device, cp + 4))
            || At(device, cp + 5) != 'd' || !IsDigit(At(device, cp + 6)) then None
         else Some(Cut(device, cp + 7)))
      else if (At(device, cp) == 'h' || At(device, cp) == 's') && At(device, cp + 1) == 'd' then
        var d := if IsDigit(At(device, cp + 2)) then cp + 3 else cp + 2;
        if !IsAlpha(At(device, d)) then None else Some(Cut(device, d + 1))
      else None
  }

  /** Devices whose name starts with the same base are on the same disk, whatever
      partition they name; a disk is its own base. */
  lemma SameDisk(device: string, other: string)
    requires BaseDevice(device).Some? && BaseDevice(device).value <= other
    ensures BaseDevice(device).value <= device
    ensures BaseDevice(other) == BaseDevice(device)
  {
    var b := BaseDevice(device).value;
    assert DEV_PREFIX <= b;
    forall i | 0 <= i < |b| ensures At(other, i) == At(device, i) {
      assert other[..|b|] == b;
    }
  }

  predicate IsMd(device: string)
  {
    BASE_MD <= device
  }

  /** All md devices count as one disk, and none else belongs to it. */
  lemma MdBase(device: string)
    ensures IsMd(device) <==> BaseDevice(device) == Some(BASE_MD)
  {
    if IsMd(device) {
      assert device[..7] == BASE_MD;
      assert device[5] == BASE_MD[5] && device[6] == BASE_MD[6];
      assert device[..5] == BASE_MD[..5] == DEV_PREFIX;
    }
    if BaseDevice(device) == Some(BASE_MD) {
      SameDisk(device, device) by {
        assert BaseDevice(device).value <= device;
      }
    }
  }

  // ---------- disks by their names ----------

  /** An IDE or SCSI disk: "/dev/hda", "/dev/sdb", and with a digit before the letter. */
  predicate IsDisk(disk: string)
  {
    && (|disk| == 8 || (|disk| == 9 && '0' <= disk[7] <= '9'))
    && (disk[..7] == "/dev/hd" || disk[..7] == "/dev/sd")
    && var c := disk[|disk| - 1]; 'a' <= c <= 'z' || 'A' <= c <= 'Z'
  }

  /** A disk of a DAC 960 controller: "/dev/rd/c0d1". */
  predicate IsRaidDisk(disk: string)
  {
    |disk| == 12 && disk[..9] == "/dev/rd/c" && '0' <= disk[9] <= '9' && disk[10] == 'd' && '0' <= disk[11] <= '9'
  }

  /** The device is this disk, or a partition of it: its name goes on behind that of the disk. */
  predicate IsOn(device: string, disk: string)
  {
    disk <= device && (IsDisk(disk) || IsRaidDisk(disk))
  }

  /** Two devices are on one disk, or it is not known on which disk one of them is, or one is
      a md device. */
  ghost predicate MayShare(a: string, b: string)
  {
    || "/dev/md" <= a || "/dev/md" <= b
    || (forall disk :: !IsOn(a, disk)) || (forall disk :: !IsOn(b, disk))
    || exists disk :: IsOn(a, disk) && IsOn(b, disk)
  }

  lemma Prefix(a: string, b: string, i: nat)
    requires a <= b && i < |a|
    ensures i < |b| && b[i] == a[i] && At(b, i) == a[i]
  {
  }

  /** The base of a device is the disk it is on. */
  lemma BaseOf(device: string, disk: string)
    requires IsOn(device, disk)
    ensures BaseDevice(device) == Some(disk) && !("/dev/md" <= device)
  {
    forall i: nat | i < |disk| ensures i < |device| && At(device, i) == disk[i] {
      Prefix(disk, device, i);
    }
    assert device[..|disk|] == disk;
    if IsDisk(disk) {
      var k := disk[..7];
      assert k[5] == disk[5] && k[6] == disk[6] && k[..5] == disk[..5] == device[..5];
      assert k[..5] == "/dev/" && (k[5] == 'h' || k[5] == 's') && k[6] == 'd';
    } else {
      var k := disk[..9];
      assert k[5] == disk[5] && k[6] == disk[6] && k[7] == disk[7] && k[8] == disk[8];
      assert k[..5] == disk[..5] == device[..5] && k[..5] == "/dev/";
      assert k[5] == 'r' && k[6] == 'd' && k[7] == '/' && k[8] == 'c';
    }
    NotMd(device);
  }

  lemma NotMd(device: string)
    requires |device| > 5 && device[5] != 'm'
    ensures !("/dev/md" <= device)
  {
    assert "/dev/md"[5] == 'm';
  }

  /** No other device has one, md devices aside. */
  lemma NoOtherBase(device: string)
    requires BaseDevice(device).Some? && !("/dev/md" <= device)
    ensures IsOn(device, BaseDevice(device).value)
  {
    var disk := BaseDevice(device).value;
    MdBase(device);
    assert disk <= device;
    assert device[..5] == "/dev/";
    if At(device, 5) == 'r' {
      assert disk[..9] == "/dev/" + [device[5], device[6], device[7], device[8]];
    } else {
      assert disk[..7] == "/dev/" + [device[5], device[6]];
    }
  }

  /** Checks are kept apart exactly if the devices may share a disk. */
  lemma ApartIs(a: string, b: string)
    ensures (BaseDevice(a).Some? && BaseDevice(b).Some? && BaseDevice(a) != BaseDevice(b) && !IsMd(a) && !IsMd(b))
       <==> !MayShare(a, b)
  {
    hide BaseDevice, IsDisk, IsRaidDisk;
    forall disk | IsOn(a, disk) ensures BaseDevice(a) == Some(disk) {
      BaseOf(a, disk);
    }
    forall disk | IsOn(b, disk) ensures BaseDevice(b) == Some(disk) {
      BaseOf(b, disk);
    }
    if BaseDevice(a).Some? && !IsMd(a) {
      NoOtherBase(a);
    }
    if BaseDevice(b).Some? && !IsMd(b) {
      NoOtherBase(b);
    }
  }

  /** All partitions of a disk, and the disk, share it: "/dev/sda1" and "/dev/sda2". */
  lemma PartitionsShare(disk: string, x: string, y: string)
    requires IsDisk(disk) || IsRaidDisk(disk)
    ensures MayShare(disk + x, disk + y)
  {
    assert IsOn(disk + x, disk) && IsOn(disk + y, disk);
  }

  /** Those of different disks do not. */
  lemma DisksDoNot(disk: string, other: string, x: string, y: string)
    requires IsDisk(disk) || IsRaidDisk(disk)
    requires (IsDisk(other) || IsRaidDisk(other)) && disk != other
    ensures !MayShare(disk + x, other + y)
  {
    hide BaseDevice;
    BaseOf(disk + x, disk);
    BaseOf(other + y, other);
    ApartIs(disk + x, other + y);
  }
}
