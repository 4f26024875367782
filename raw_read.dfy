/**
 * The on-device steps of rawread.py, run against a `Device`: the sector
 * eraser, NoFS initialization, the signature probe, the read-out loop and
 * the erase gate that follows it in `main`. Each method is proved against
 * the byte-level functions of module NofsFormat.
 */
module RawRead {
  import opened Basics
  import opened BlockDevice
  import opened NofsFormat

  /** Which of `-e` and `-E` was given (the option parser rejects both at once). */
  datatype EraseMode = NoErase | EraseRead | EraseAll

  /** The `sector_count` argument the erase gate passes to `erase_sectors`. */
  function EraseCount(mode: EraseMode, sectorsRead: nat): Option<int> {
    if mode == EraseRead then Some(sectorsRead) else None
  }

  lemma {:induction false} ZeroOneMoreSector(s: seq<bv8>, k: nat)
    requires (k + 1) * SECTOR_SIZE <= |s|
    ensures Splice(ZeroSectors(s, k), k * SECTOR_SIZE, Zeros(SECTOR_SIZE)) == ZeroSectors(s, k + 1)
  {
    assert (k + 1) * SECTOR_SIZE == k * SECTOR_SIZE + SECTOR_SIZE;
    assert Zeros(k * SECTOR_SIZE) + Zeros(SECTOR_SIZE) == Zeros((k + 1) * SECTOR_SIZE);
  }

  /**
   * `erase_sectors(handle, sector_count)`: rewind, then write one sector of
   * fill at a time until `sector_count` writes have succeeded or a write
   * fails at the end of the medium. Returns how many sectors were zeroed.
   */
  method EraseSectors(dev: Device, sectorCount: Option<int>) returns (written: nat)
    requires dev.Valid()
    modifies dev`pos, dev`writeCalls, dev.data
    ensures dev.Valid()
    ensures written == ErasedSectorCount(dev.data.Length, sectorCount)
    ensures dev.data[..] == ZeroSectors(old(dev.data[..]), written)
    ensures dev.pos == written * SECTOR_SIZE
    ensures var stoppedByCount := sectorCount.Some? && 1 <= sectorCount.value == written;
      dev.writeCalls == old(dev.writeCalls) + written + (if stoppedByCount then 0 else 1)
    ensures sectorCount.Some? && 1 <= sectorCount.value ==>
      dev.writeCalls <= old(dev.writeCalls) + sectorCount.value
  {
    dev.Rewind();
    var remaining := sectorCount;
    var eof := false;
    ghost var failed := false;
    written := 0;
    while !eof
      invariant dev.Valid() && dev.pos == written * SECTOR_SIZE
      invariant dev.data[..] == ZeroSectors(old(dev.data[..]), written)
      invariant remaining.Some? <==> sectorCount.Some?
      invariant remaining.Some? ==> remaining.value == sectorCount.value - written
      invariant !eof ==> !(sectorCount.Some? && 1 <= sectorCount.value <= written)
      invariant failed ==> eof && (written + 1) * SECTOR_SIZE > dev.data.Length
      invariant failed ==> !(sectorCount.Some? && 1 <= sectorCount.value <= written)
      invariant eof && !failed ==> sectorCount.Some? && 1 <= sectorCount.value == written
      invariant dev.writeCalls == old(dev.writeCalls) + written + (if failed then 1 else 0)
      decreases dev.data.Length - dev.pos, !eof
    {
      ghost var before := dev.data[..];
      var ok := dev.Write(Zeros(SECTOR_SIZE));
      if ok {
        ZeroOneMoreSector(old(dev.data[..]), written);
        written := written + 1;
        if remaining.Some? {
          remaining := Some(remaining.value - 1);
          eof := remaining.value == 0;
        }
      } else {
        eof := true;
        failed := true;
      }
    }
    if failed {
      assert written == dev.data.Length / SECTOR_SIZE;
    }
  }

  /**
   * `initialize_nofs(handle)`: zero sector 0, rewind and write the header
   * over it. `ok` is false when the header write failed, which is the
   * `IOError` the source reports and swallows.
   */
  method InitializeNofs(dev: Device) returns (ok: bool)
    requires dev.Valid()
    modifies dev`pos, dev`writeCalls, dev.data
    ensures dev.Valid()
    ensures ok <==> dev.data.Length >= SECTOR_SIZE
    ensures dev.data[..] == Initialized(old(dev.data[..]))
    ensures dev.pos == if ok then SECTOR_SIZE else 0
  {
    var _ := EraseSectors(dev, Some(1));
    dev.Rewind();
    var firstSector := Header();
    ok := dev.Write(firstSector);
  }

  /**
   * The signature probe on a freshly opened handle: read as many bytes as
   * the signature has, compare, and rewind.
   */
  method ProbeSignature(dev: Device) returns (valid: bool)
    requires dev.Valid() && dev.pos == 0
    modifies dev`pos, dev`readCalls
    ensures dev.Valid() && dev.pos == 0
    ensures valid <==> HasSignature(dev.data[..])
  {
    var head := dev.Read(|SIGNATURE|);
    valid := head == SIGNATURE;
    dev.Rewind();
  }

  /**
   * The read loop of `main`: read a sector, write it to the output, count
   * it, and stop after a sector that is short or holds the terminal byte.
   */
  method ReadSectors(dev: Device) returns (output: seq<bv8>, sectorsRead: nat)
    requires dev.Valid() && dev.pos == 0
    modifies dev`pos, dev`readCalls
    ensures dev.Valid()
    ensures Readout(output, sectorsRead) == Scan(dev.data[..])
    ensures output == dev.data[..dev.pos]
    ensures dev.readCalls == old(dev.readCalls) + sectorsRead
  {
    ghost var medium := dev.data[..];
    var eof := false;
    output, sectorsRead := [], 0;
    while !eof
      invariant dev.Valid()
      invariant output == medium[..dev.pos]
      invariant dev.readCalls == old(dev.readCalls) + sectorsRead
      invariant !eof ==> var rest := Scan(medium[dev.pos..]);
        Scan(medium) == Readout(output + rest.bytes, sectorsRead + rest.sectors)
      invariant eof ==> Scan(medium) == Readout(output, sectorsRead)
      decreases dev.data.Length - dev.pos, !eof
    {
      ghost var k := dev.pos;
      var sector := dev.Read(SECTOR_SIZE);
      assert sector == medium[k..Min(k + SECTOR_SIZE, |medium|)];
      ScanLoopStep(medium, k, output, sectorsRead, sector);
      eof := |sector| != SECTOR_SIZE || TERMINAL in sector;
      output := output + sector;
      sectorsRead := sectorsRead + 1;
    }
  }

  /**
   * The erase gate of `main`: with `-e` or `-E`, and only on a valid NoFS
   * or with `-f`, erase the sectors that were read (`-e`) or the whole
   * medium (`-E`) and initialize the NoFS again. Otherwise nothing is
   * written.
   */
  method EraseGate(dev: Device, mode: EraseMode, validNofs: bool, force: bool, sectorsRead: nat)
    returns (erased: bool)
    requires dev.Valid()
    modifies dev`pos, dev`writeCalls, dev.data
    ensures dev.Valid()
    ensures erased <==> mode != NoErase && (validNofs || force)
    ensures erased ==> dev.data[..] == ErasedAndInitialized(old(dev.data[..]), EraseCount(mode, sectorsRead))
    ensures !erased ==> dev.data[..] == old(dev.data[..]) && dev.pos == old(dev.pos)
    ensures !erased ==> dev.writeCalls == old(dev.writeCalls)
  {
    erased := false;
    if mode != NoErase {
      if validNofs || force {
        var _ := EraseSectors(dev, EraseCount(mode, sectorsRead));
        var _ := InitializeNofs(dev);
        erased := true;
      }
    }
  }

  /**
   * `main` after option parsing, on an opened input handle: probe the
   * signature unless the device was found by the NoFS device search, read
   * the device out, then apply the erase gate.
   */
  method ReadOutAndErase(dev: Device, detected: bool, mode: EraseMode, force: bool)
    returns (output: seq<bv8>, sectorsRead: nat, validNofs: bool)
    requires dev.Valid() && dev.pos == 0
    requires detected ==> HasSignature(dev.data[..])
    modifies dev`pos, dev`readCalls, dev`writeCalls, dev.data
    ensures dev.Valid()
    ensures validNofs <==> HasSignature(old(dev.data[..]))
    ensures Readout(output, sectorsRead) == Scan(old(dev.data[..]))
    ensures dev.data[..] == if mode != NoErase && (validNofs || force)
      then ErasedAndInitialized(old(dev.data[..]), EraseCount(mode, sectorsRead))
      else old(dev.data[..])
  {
    validNofs := detected;
    if !validNofs {
      validNofs := ProbeSignature(dev);
    }
    output, sectorsRead := ReadSectors(dev);
    var _ := EraseGate(dev, mode, validNofs, force, sectorsRead);
  }
}
