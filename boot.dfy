/** Start-up: choosing the boot device among the `-hdd` images, the memory
    the chosen boot sector leaves behind, and the PSF1 font header test. */
module Boot {
  import opened Bits
  import opened Cpu

  /** A file named on the command line: either it could not be opened or
      these are its bytes. */
  datatype HostFile = CannotOpen | Opened(bytes: seq<bv8>)

  /** How the boot loop ends: with a boot device id, with no bootable
      image (the program exits before executing anything), or at the
      `index`-th image, which could not be opened (the program ends). */
  datatype BootOutcome = Booted(device: int) | NoBootableDevice | OpenFailed(index: nat)

  /** Device id of the first hard disk; the k-th `-hdd` image is 0x80 + k. */
  const FIRST_HARD_DISK: nat := 0x80
  const SECTOR_SIZE: nat := 512

  /** The 512-byte read at the start of the image succeeds and the bytes at
      offsets 510 and 511 are 0x55 and 0xAA, that is, the little-endian
      word there is 0xAA55. */
  predicate Bootable(f: HostFile): (ok: bool)
    ensures ok <==> f.Opened? && |f.bytes| >= SECTOR_SIZE && LittleEndian16(f.bytes[510], f.bytes[511]) == 0xAA55
  {
    f.Opened? && |f.bytes| >= SECTOR_SIZE && f.bytes[510] == 0x55 && f.bytes[511] == 0xAA
  }

  /** Every image from the `from`-th on could be opened. */
  predicate AllOpenFrom(disks: seq<HostFile>, from: nat)
  {
    forall j :: from <= j < |disks| ==> disks[j].Opened?
  }

  /** The boot loop from its `k`-th image on, `bootDevice` being the device
      chosen so far (negative while none is). An image that cannot be
      opened ends the program whether or not a boot device was already
      found; once one is found, later images are opened but not read. */
  function SelectFrom(disks: seq<HostFile>, k: nat, bootDevice: int): (r: BootOutcome)
    requires k <= |disks|
    ensures r.OpenFailed? ==> k <= r.index < |disks| && disks[r.index].CannotOpen?
    ensures r.Booted? ==>
      (bootDevice >= 0 && r.device == bootDevice) ||
      (FIRST_HARD_DISK + k <= r.device < FIRST_HARD_DISK + |disks| && Bootable(disks[r.device - FIRST_HARD_DISK]))
    ensures r == NoBootableDevice ==> bootDevice < 0
    decreases |disks| - k
  {
    if k == |disks| then
      if bootDevice < 0 then NoBootableDevice else Booted(bootDevice)
    else if disks[k].CannotOpen? then OpenFailed(k)
    else if bootDevice < 0 && Bootable(disks[k]) then SelectFrom(disks, k + 1, FIRST_HARD_DISK + k)
    else SelectFrom(disks, k + 1, bootDevice)
  }

  /** The whole boot loop. */
  function SelectBoot(disks: seq<HostFile>): (r: BootOutcome)
    ensures r.OpenFailed? ==> r.index < |disks| && disks[r.index].CannotOpen?
    ensures r.Booted? ==>
      FIRST_HARD_DISK <= r.device < FIRST_HARD_DISK + |disks| && Bootable(disks[r.device - FIRST_HARD_DISK])
  {
    SelectFrom(disks, 0, -1)
  }

  lemma {:induction false} SelectFromCharacterised(disks: seq<HostFile>, i: nat, bootDevice: int, k: nat)
    requires i <= |disks|
    requires bootDevice < 0 || FIRST_HARD_DISK <= bootDevice < FIRST_HARD_DISK + i
    ensures SelectFrom(disks, i, bootDevice).Booted? ==>
      FIRST_HARD_DISK <= SelectFrom(disks, i, bootDevice).device < FIRST_HARD_DISK + |disks|
    ensures SelectFrom(disks, i, bootDevice) == OpenFailed(k) <==>
      i <= k < |disks| && disks[k].CannotOpen? && forall j :: i <= j < k ==> disks[j].Opened?
    ensures SelectFrom(disks, i, bootDevice) == Booted(FIRST_HARD_DISK + k) <==>
      AllOpenFrom(disks, i) &&
      if bootDevice >= 0 then bootDevice == FIRST_HARD_DISK + k
      else i <= k < |disks| && Bootable(disks[k]) && forall j :: i <= j < k ==> !Bootable(disks[j])
    ensures SelectFrom(disks, i, bootDevice) == NoBootableDevice <==>
      AllOpenFrom(disks, i) && bootDevice < 0 && forall j :: i <= j < |disks| ==> !Bootable(disks[j])
    decreases |disks| - i
  {
    if i < |disks| && disks[i].Opened? {
      var next := if bootDevice < 0 && Bootable(disks[i]) then FIRST_HARD_DISK + i else bootDevice;
      SelectFromCharacterised(disks, i + 1, next, k);
    }
  }

  /** The boot loop's outcome, stated without the loop: the first image that
      cannot be opened ends the program; otherwise the boot device is
      0x80 + k for the first bootable image k; otherwise there is none. */
  lemma SelectBootCharacterised(disks: seq<HostFile>, k: nat)
    ensures SelectBoot(disks).Booted? ==>
      FIRST_HARD_DISK <= SelectBoot(disks).device < FIRST_HARD_DISK + |disks|
    ensures SelectBoot(disks) == OpenFailed(k) <==>
      0 <= k < |disks| && disks[k].CannotOpen? && forall j :: 0 <= j < k ==> disks[j].Opened?
    ensures SelectBoot(disks) == Booted(FIRST_HARD_DISK + k) <==>
      AllOpenFrom(disks, 0) && 0 <= k < |disks| && Bootable(disks[k])
      && forall j :: 0 <= j < k ==> !Bootable(disks[j])
    ensures SelectBoot(disks) == NoBootableDevice <==>
      AllOpenFrom(disks, 0) && forall j :: 0 <= j < |disks| ==> !Bootable(disks[j])
  {
    SelectFromCharacterised(disks, 0, -1, k);
  }

  /** Given two images where only the second carries the signature, the
      second becomes the boot device; with neither signed, nothing boots. */
  lemma SecondSignedImageBoots(first: seq<bv8>, second: seq<bv8>)
    requires !Bootable(Opened(first))
    ensures Bootable(Opened(second)) ==> SelectBoot([Opened(first), Opened(second)]) == Booted(0x81)
    ensures !Bootable(Opened(second)) ==> SelectBoot([Opened(first), Opened(second)]) == NoBootableDevice
  {
    SelectBootCharacterised([Opened(first), Opened(second)], 1);
  }

  /** Memory after booting from a sector: zero except for the 512 bytes at
      BOOTSECTOR_ADDR, which hold the sector. */
  function LoadedMemory(sector: seq<bv8>): (m: seq<bv8>)
    requires |sector| == SECTOR_SIZE
    ensures |m| == MEM_SIZE
    ensures m[BOOTSECTOR_ADDR..BOOTSECTOR_ADDR + SECTOR_SIZE] == sector
    ensures forall i :: 0 <= i < MEM_SIZE && !(BOOTSECTOR_ADDR <= i < BOOTSECTOR_ADDR + SECTOR_SIZE) ==> m[i] == 0
  {
    seq(MEM_SIZE, i requires 0 <= i < MEM_SIZE =>
      if BOOTSECTOR_ADDR <= i < BOOTSECTOR_ADDR + SECTOR_SIZE then sector[i - BOOTSECTOR_ADDR] else 0)
  }

  /** The machine state the first instruction sees after booting from
      image `k`: its first sector resident at BOOTSECTOR_ADDR, `eip` there,
      everything else as at start-up. */
  function BootedState(disks: seq<HostFile>, k: nat): (s: State)
    requires k < |disks| && Bootable(disks[k])
    ensures s.WellFormed()
  {
    Initial().(mem := LoadedMemory(disks[k].bytes[..SECTOR_SIZE]), eip := BOOTSECTOR_ADDR)
  }

  /** The booted machine starts executing the boot sector's first byte and
      finds the signature still in memory at offsets 510 and 511. */
  lemma BootedStateRunsSector(disks: seq<HostFile>, k: nat)
    requires k < |disks| && Bootable(disks[k])
    ensures var s := BootedState(disks, k);
      s.mem[s.eip] == disks[k].bytes[0] &&
      s.mem[BOOTSECTOR_ADDR + 510] == 0x55 && s.mem[BOOTSECTOR_ADDR + 511] == 0xAA &&
      !s.hlt && !s.size
  {
    var s := BootedState(disks, k);
    assert s.mem[BOOTSECTOR_ADDR..BOOTSECTOR_ADDR + SECTOR_SIZE][0] == disks[k].bytes[0];
    assert s.mem[BOOTSECTOR_ADDR..BOOTSECTOR_ADDR + SECTOR_SIZE][510] == 0x55;
    assert s.mem[BOOTSECTOR_ADDR..BOOTSECTOR_ADDR + SECTOR_SIZE][511] == 0xAA;
  }

  /** The drive table after opening the first `n` images: device 0x80 + k
      is the k-th image, and no other device is attached. */
  predicate DriveTable(drives: map<int, seq<bv8>>, disks: seq<HostFile>, n: nat): (ok: bool)
    requires n <= |disks|
    ensures ok ==> forall d :: d in drives <==> FIRST_HARD_DISK <= d < FIRST_HARD_DISK + n
  {
    OffsetsCoverIds(drives, disks, n);
    (forall k :: 0 <= k < n ==>
      disks[k].Opened? && FIRST_HARD_DISK + k in drives && drives[FIRST_HARD_DISK + k] == disks[k].bytes) &&
    (forall d :: d in drives ==> FIRST_HARD_DISK <= d < FIRST_HARD_DISK + n)
  }

  /** A table holding the `k`-th image as device `FIRST_HARD_DISK + k` for
      every `k < n` holds every device id of that range. */
  lemma OffsetsCoverIds(drives: map<int, seq<bv8>>, disks: seq<HostFile>, n: nat)
    requires n <= |disks|
    ensures (forall k :: 0 <= k < n ==>
      disks[k].Opened? && FIRST_HARD_DISK + k in drives && drives[FIRST_HARD_DISK + k] == disks[k].bytes) ==>
      forall d :: FIRST_HARD_DISK <= d < FIRST_HARD_DISK + n ==> d in drives
  {
    if forall k :: 0 <= k < n ==>
      disks[k].Opened? && FIRST_HARD_DISK + k in drives && drives[FIRST_HARD_DISK + k] == disks[k].bytes
    {
      forall d | FIRST_HARD_DISK <= d < FIRST_HARD_DISK + n
        ensures d in drives
      {
        var k := d - FIRST_HARD_DISK;
        assert disks[k].Opened?;
      }
    }
  }

  /** Opening one more image adds exactly its device to the table. */
  lemma DriveTableGrows(drives: map<int, seq<bv8>>, disks: seq<HostFile>, n: nat)
    requires n < |disks| && disks[n].Opened? && DriveTable(drives, disks, n)
    ensures DriveTable(drives[FIRST_HARD_DISK + n := disks[n].bytes], disks, n + 1)
  {
    var grown := drives[FIRST_HARD_DISK + n := disks[n].bytes];
    forall k | 0 <= k < n + 1
      ensures disks[k].Opened? && FIRST_HARD_DISK + k in grown && grown[FIRST_HARD_DISK + k] == disks[k].bytes
    {
      if k < n {
        assert disks[k].Opened? && FIRST_HARD_DISK + k in drives && drives[FIRST_HARD_DISK + k] == disks[k].bytes;
      }
    }
    forall d | d in grown
      ensures FIRST_HARD_DISK <= d < FIRST_HARD_DISK + n + 1
    {
      if d != FIRST_HARD_DISK + n {
        assert d in drives;
      }
    }
    assert DriveTable(grown, disks, n + 1);
  }

  /** How loading the font ends. */
  datatype FontLoad = FontOpenFailed | FontReadFailed | FontUnsupported | FontLoaded(font: seq<bv8>)

  /** The PSF1 header: magic bytes 0x36 0x04, a mode byte, the glyph height. */
  function Psf1Header(mode: bv8, height: bv8): seq<bv8>
  {
    [0x36, 0x04, mode, height]
  }

  /** The header test: PSF1 magic and a glyph height of 16; the mode byte
      is not looked at, so the test accepts exactly the fonts that start
      with a height-16 PSF1 header of some mode. */
  predicate Psf1Supported(font: seq<bv8>): (ok: bool)
    requires |font| >= 4
    ensures ok <==> exists mode :: font[..4] == Psf1Header(mode, 16)
  {
    assert font[0] == 0x36 && font[1] == 0x04 ==> font[..4] == Psf1Header(font[2], font[3]) by {
      assert forall i :: 0 <= i < 4 ==> font[..4][i] == font[i];
    }
    font[0] == 0x36 && font[1] == 0x04 && font[3] == 16
  }

  /** Loading the font file: a file that cannot be opened or is empty is an
      error, and so is one whose header the test refuses. */
  function LoadFont(file: HostFile): (r: FontLoad)
    requires file.Opened? ==> |file.bytes| == 0 || |file.bytes| >= 4
    ensures r == FontOpenFailed <==> file.CannotOpen?
    ensures r.FontLoaded? <==> file.Opened? && |file.bytes| >= 4 && Psf1Supported(file.bytes)
    ensures r.FontLoaded? ==> r.font == file.bytes && r.font[3] == 16
  {
    if file.CannotOpen? then FontOpenFailed
    else if |file.bytes| == 0 then FontReadFailed
    else if !Psf1Supported(file.bytes) then FontUnsupported
    else FontLoaded(file.bytes)
  }

  /** A file that starts with a PSF1 header of height 16 loads whatever its
      mode byte and glyphs; any other height is refused. */
  lemma LoadFontAcceptsExactlyHeight16(mode: bv8, height: bv8, glyphs: seq<bv8>)
    ensures var bytes := Psf1Header(mode, height) + glyphs;
      LoadFont(Opened(bytes)) == if height == 16 then FontLoaded(bytes) else FontUnsupported
  {
  }
}
