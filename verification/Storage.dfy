/** The RAM disk block device: fixed 512-byte sectors over an immutable byte sequence. */
module Storage {
  import opened Machine

  const SECTOR_SIZE := 512

  datatype StorageError = MissingRamdisk | InvalidRamdisk | SectorOutOfRange

  type Disk = d: seq<byte> | |d| < SLICE_LIMIT witness []

  /** The length check of `from_boot_info`; `mapped` stands for the memory at the given address. */
  function FromBootInfo(mapped: Option<Disk>): (r: Result<Disk, StorageError>)
    ensures r.Ok? <==> mapped.Some? && exists n :: 0 < n && |mapped.value| == SECTOR_SIZE * n
    ensures r.Ok? ==> r.value == mapped.value && 0 < SectorCount(r.value)
    ensures r.Err? ==> r.error == if mapped.None? then MissingRamdisk else InvalidRamdisk
  {
    match mapped
    case None => Err(MissingRamdisk)
    case Some(disk) =>
      assert |disk| == SECTOR_SIZE * (|disk| / SECTOR_SIZE) + |disk| % SECTOR_SIZE;
      if |disk| == 0 || |disk| % SECTOR_SIZE != 0 then Err(InvalidRamdisk) else Ok(disk)
  }

  function SectorCount(disk: Disk): usize {
    |disk| / SECTOR_SIZE
  }

  /** Sector `lba` of the disk, if the disk has it. */
  function SectorAt(disk: Disk, lba: u32): (r: Result<seq<byte>, StorageError>)
    ensures r.Ok? <==> lba < SectorCount(disk)
    ensures r.Ok? ==> |r.value| == SECTOR_SIZE && lba * SECTOR_SIZE + SECTOR_SIZE <= |disk|
    ensures r.Ok? ==> forall i :: 0 <= i < SECTOR_SIZE ==> r.value[i] == disk[lba * SECTOR_SIZE + i]
    ensures r.Err? ==> r.error == SectorOutOfRange
  {
    if lba < SectorCount(disk)
    then Ok(disk[lba * SECTOR_SIZE..(lba + 1) * SECTOR_SIZE])
    else Err(SectorOutOfRange)
  }

  /** `read_sector`: checked 64-bit bounds, then a copy into the caller's buffer. */
  method ReadSector(disk: Disk, lba: u32, output: array<byte>) returns (r: Result<(), StorageError>)
    requires output.Length == SECTOR_SIZE
    modifies output
    ensures r.Ok? <==> SectorAt(disk, lba).Ok?
    ensures r.Ok? ==> output[..] == SectorAt(disk, lba).value
    ensures r.Err? ==> r.error == SectorOutOfRange && output[..] == old(output[..])
  {
    var start: usize := lba * SECTOR_SIZE;
    var end: usize := start + SECTOR_SIZE;
    if end > |disk| {
      return Err(SectorOutOfRange);
    }
    forall i | 0 <= i < SECTOR_SIZE {
      output[i] := disk[start + i];
    }
    assert output[..] == disk[start..end];
    r := Ok(());
  }
}
