/**
 * The NoFS marker format as the program lays it out on a device, and the
 * byte-level meaning of its three device operations: the sector scan that
 * reads a device out, the zero fill that erases it, and the header write
 * that initializes it. The imperative code in module RawRead is proved
 * against these functions.
 */
module NofsFormat {
  import opened Basics

  /** NOFS_SECTOR_SIZE */
  const SECTOR_SIZE: nat := 512
  /** NOFS_TERMINAL, the byte that ends a NoFS */
  const TERMINAL: bv8 := 0x03
  /** The byte erased sectors and the header padding are filled with. */
  const FILL: bv8 := 0x00
  /** NOFS_HEAD, the ASCII bytes of "k621.de" */
  const SIGNATURE: seq<bv8> := [0x6B, 0x36, 0x32, 0x31, 0x2E, 0x64, 0x65]

  function Zeros(n: nat): seq<bv8> {
    seq(n, _ => FILL)
  }

  /**
   * The first sector `initialize_nofs` writes: the signature, the terminal
   * byte, and fill up to a whole sector. Its first terminal byte is the one
   * right after the signature.
   */
  function Header(): (h: seq<bv8>)
    ensures |h| == SECTOR_SIZE
    ensures h[..|SIGNATURE|] == SIGNATURE
    ensures h[|SIGNATURE|] == TERMINAL
    ensures forall i :: 0 <= i < |SIGNATURE| ==> h[i] != TERMINAL
    ensures forall i :: |SIGNATURE| < i < SECTOR_SIZE ==> h[i] == FILL
  {
    SIGNATURE + [TERMINAL] + Zeros(SECTOR_SIZE - |SIGNATURE| - |[TERMINAL]|)
  }

  /** The signature probe: the first bytes of the medium are NOFS_HEAD. */
  predicate HasSignature(s: seq<bv8>) {
    |s| >= |SIGNATURE| && s[..|SIGNATURE|] == SIGNATURE
  }

  /** What the read loop produces: the bytes written out and `sectors_read`. */
  datatype Readout = Readout(bytes: seq<bv8>, sectors: nat)

  /**
   * The read loop on the medium `s` from its current offset: read a sector
   * (short at the end of the medium), emit it whole, and stop after a sector
   * that is short or holds the terminal byte.
   */
  function Scan(s: seq<bv8>): (r: Readout)
    ensures r.sectors >= 1 && r.bytes <= s
    decreases |s|
  {
    var sector := s[..if |s| < SECTOR_SIZE then |s| else SECTOR_SIZE];
    if |sector| != SECTOR_SIZE || TERMINAL in sector then
      Readout(sector, 1)
    else
      var rest := Scan(s[SECTOR_SIZE..]);
      Readout(sector + rest.bytes, rest.sectors + 1)
  }

  /** One turn of the read loop: the sector it reads, and whether it stops there. */
  lemma {:induction false} ScanStep(s: seq<bv8>, sector: seq<bv8>)
    requires sector == s[..if |s| < SECTOR_SIZE then |s| else SECTOR_SIZE]
    ensures |sector| != SECTOR_SIZE || TERMINAL in sector ==> Scan(s) == Readout(sector, 1)
    ensures |sector| == SECTOR_SIZE && TERMINAL !in sector ==>
      Scan(s) == Readout(sector + Scan(s[SECTOR_SIZE..]).bytes, Scan(s[SECTOR_SIZE..]).sectors + 1)
  {
  }

  /**
   * The read loop's invariant is kept by one turn: having emitted the first
   * `k` bytes of `s` as `output`, the next sector read extends it.
   */
  lemma {:induction false} ScanLoopStep(s: seq<bv8>, k: nat, output: seq<bv8>, sectors: nat, sector: seq<bv8>)
    requires k <= |s| && output == s[..k]
    requires sector == s[k..Min(k + SECTOR_SIZE, |s|)]
    requires Scan(s) == Readout(output + Scan(s[k..]).bytes, sectors + Scan(s[k..]).sectors)
    ensures output + sector == s[..k + |sector|]
    ensures |sector| != SECTOR_SIZE || TERMINAL in sector ==> Scan(s) == Readout(output + sector, sectors + 1)
    ensures |sector| == SECTOR_SIZE && TERMINAL !in sector ==>
      var rest := Scan(s[k + SECTOR_SIZE..]);
      Scan(s) == Readout(output + sector + rest.bytes, sectors + 1 + rest.sectors)
  {
    var here := s[k..];
    ScanStep(here, sector);
    if |sector| == SECTOR_SIZE && TERMINAL !in sector {
      assert here[SECTOR_SIZE..] == s[k + SECTOR_SIZE..];
      var rest := Scan(here[SECTOR_SIZE..]).bytes;
      assert output + (sector + rest) == output + sector + rest;
    }
  }

  /**
   * An independent description of where the read loop stops: `k` is a
   * sector count such that the `k - 1` sectors before it are whole and free
   * of the terminal byte, and sector `k - 1` is short or holds it.
   */
  ghost predicate StopsAt(s: seq<bv8>, k: nat) {
    1 <= k && (k - 1) * SECTOR_SIZE <= |s| &&
    TERMINAL !in s[..(k - 1) * SECTOR_SIZE] &&
    (|s| < k * SECTOR_SIZE || TERMINAL in s[(k - 1) * SECTOR_SIZE..k * SECTOR_SIZE])
  }

  /** The medium `s` with its first `k` sectors overwritten with fill. */
  function ZeroSectors(s: seq<bv8>, k: nat): (r: seq<bv8>)
    requires k * SECTOR_SIZE <= |s|
    ensures |r| == |s|
    ensures forall i :: 0 <= i < k * SECTOR_SIZE ==> r[i] == FILL
    ensures r[k * SECTOR_SIZE..] == s[k * SECTOR_SIZE..]
  {
    Zeros(k * SECTOR_SIZE) + s[k * SECTOR_SIZE..]
  }

  /**
   * How many sectors `erase_sectors(handle, count)` zeroes on a medium of
   * `capacity` bytes: a positive count stops the loop after that many
   * writes; `None`, or a count that never reaches zero when decremented,
   * runs until the first write that does not fit.
   */
  function ErasedSectorCount(capacity: nat, count: Option<int>): (k: nat)
    ensures k * SECTOR_SIZE <= capacity
    ensures k <= capacity / SECTOR_SIZE
    ensures count.Some? && 1 <= count.value ==> k <= count.value
    ensures k < capacity / SECTOR_SIZE ==> count.Some? && 1 <= count.value && k == count.value
  {
    var fit := capacity / SECTOR_SIZE;
    if count.Some? && 1 <= count.value < fit then count.value else fit
  }

  /**
   * The medium after `initialize_nofs`: the header over sector 0 when a
   * whole sector fits, otherwise untouched (both writes fail).
   */
  function Initialized(s: seq<bv8>): (r: seq<bv8>)
    ensures |r| == |s|
    ensures |s| >= SECTOR_SIZE ==> HasSignature(r)
    ensures |s| < SECTOR_SIZE ==> r == s
  {
    if |s| >= SECTOR_SIZE then Header() + s[SECTOR_SIZE..] else s
  }

  /** The medium after `erase_sectors(handle, count)` then `initialize_nofs`. */
  function ErasedAndInitialized(s: seq<bv8>, count: Option<int>): (r: seq<bv8>)
    ensures |r| == |s|
    ensures |s| >= SECTOR_SIZE ==> HasSignature(r)
  {
    Initialized(ZeroSectors(s, ErasedSectorCount(|s|, count)))
  }

  // ---------------------------------------------------------------------
  // Properties of the read loop

  lemma {:induction false} TerminalInSlice(s: seq<bv8>, i: nat, a: nat, b: nat)
    requires a <= i < b <= |s| && s[i] == TERMINAL
    ensures TERMINAL in s[a..b]
  {
    assert s[a..b][i - a] == TERMINAL;
  }

  lemma {:induction false} NoTerminalInSlice(s: seq<bv8>, a: nat, b: nat)
    requires TERMINAL !in s && a <= b <= |s|
    ensures TERMINAL !in s[a..b]
  {
    forall j | 0 <= j < b - a
      ensures s[a..b][j] != TERMINAL
    {
      assert s[a..b][j] == s[a + j];
    }
  }

  /**
   * The read loop emits the medium from its start, whole sectors at a
   * time: its output is exactly the first `sectors` sectors, the last one
   * cut only by the end of the medium, never at the terminal byte.
   */
  lemma {:induction false} ScanEmitsWholeSectors(s: seq<bv8>)
    ensures Scan(s).sectors >= 1
    ensures (Scan(s).sectors - 1) * SECTOR_SIZE <= |s|
    ensures Scan(s).bytes == s[..Min(Scan(s).sectors * SECTOR_SIZE, |s|)]
    decreases |s|
  {
    if |s| >= SECTOR_SIZE && TERMINAL !in s[..SECTOR_SIZE] {
      var rest := s[SECTOR_SIZE..];
      ScanEmitsWholeSectors(rest);
      var n := Scan(rest).sectors;
      assert Scan(s).sectors == n + 1;
      assert (n + 1) * SECTOR_SIZE == n * SECTOR_SIZE + SECTOR_SIZE;
      assert s[..SECTOR_SIZE] + rest[..Min(n * SECTOR_SIZE, |rest|)]
          == s[..Min((n + 1) * SECTOR_SIZE, |s|)];
    }
  }

  /** The read loop stops exactly where `StopsAt` says. */
  lemma {:induction false} ScanStopsAtFirstShortOrTerminalSector(s: seq<bv8>)
    ensures StopsAt(s, Scan(s).sectors)
    decreases |s|
  {
    if |s| >= SECTOR_SIZE && TERMINAL !in s[..SECTOR_SIZE] {
      var rest := s[SECTOR_SIZE..];
      ScanStopsAtFirstShortOrTerminalSector(rest);
      var n := Scan(rest).sectors;
      assert Scan(s).sectors == n + 1;
      assert n * SECTOR_SIZE == (n - 1) * SECTOR_SIZE + SECTOR_SIZE;
      assert (n + 1) * SECTOR_SIZE == n * SECTOR_SIZE + SECTOR_SIZE;
      assert s[..n * SECTOR_SIZE] == s[..SECTOR_SIZE] + rest[..(n - 1) * SECTOR_SIZE];
      if |rest| >= n * SECTOR_SIZE {
        var a := (n - 1) * SECTOR_SIZE;
        assert rest[a..a + SECTOR_SIZE] == s[a + SECTOR_SIZE..a + 2 * SECTOR_SIZE];
      }
    }
  }

  /** A medium that stops at sector `m` does not stop at any earlier sector. */
  lemma {:induction false} NoStopBefore(s: seq<bv8>, m: nat, k: nat)
    requires StopsAt(s, m) && 1 <= k < m
    ensures k * SECTOR_SIZE <= |s| && TERMINAL !in s[(k - 1) * SECTOR_SIZE..k * SECTOR_SIZE]
  {
    var lo, hi := (k - 1) * SECTOR_SIZE, k * SECTOR_SIZE;
    var before := s[..(m - 1) * SECTOR_SIZE];
    assert hi <= |before|;
    forall j | 0 <= j < hi - lo
      ensures s[lo..hi][j] != TERMINAL
    {
      assert s[lo..hi][j] == before[lo + j];
    }
  }

  /** At most one sector count satisfies `StopsAt`. */
  lemma {:induction false} StopsAtUnique(s: seq<bv8>, k: nat, m: nat)
    requires StopsAt(s, k) && StopsAt(s, m)
    ensures k == m
  {
    if k < m {
      NoStopBefore(s, m, k);
    } else if m < k {
      NoStopBefore(s, k, m);
    }
  }

  /** `sectors_read` is the first sector that is short or holds the terminal byte. */
  lemma {:induction false} ScanSectorsCharacterized(s: seq<bv8>, k: nat)
    ensures StopsAt(s, k) <==> k == Scan(s).sectors
  {
    ScanStopsAtFirstShortOrTerminalSector(s);
    if StopsAt(s, k) {
      StopsAtUnique(s, k, Scan(s).sectors);
    }
  }

  /**
   * Bounds on the output length: between `sectors - 1` and `sectors` whole
   * sectors, and exactly `sectors - 1` only when the last read found the
   * medium already exhausted.
   */
  lemma {:induction false} ScanLengthBounds(s: seq<bv8>)
    ensures (Scan(s).sectors - 1) * SECTOR_SIZE <= |Scan(s).bytes| <= Scan(s).sectors * SECTOR_SIZE
    ensures |Scan(s).bytes| == (Scan(s).sectors - 1) * SECTOR_SIZE ==> |s| == |Scan(s).bytes|
    ensures |Scan(s).bytes| <= |s|
  {
    ScanEmitsWholeSectors(s);
  }

  /** A formatted medium reads out as exactly its header sector. */
  lemma {:induction false} ScanOfFormattedMedium(s: seq<bv8>)
    requires |s| >= SECTOR_SIZE && s[..SECTOR_SIZE] == Header()
    ensures Scan(s) == Readout(Header(), 1)
  {
    TerminalInSlice(s, |SIGNATURE|, 0, SECTOR_SIZE);
  }

  // ---------------------------------------------------------------------
  // Properties of erase and initialize

  /** After `initialize_nofs` a medium of at least one sector probes as NoFS and reads out as its header. */
  lemma {:induction false} InitializedIsFormatted(s: seq<bv8>)
    requires |s| >= SECTOR_SIZE
    ensures |Initialized(s)| == |s|
    ensures Initialized(s)[..SECTOR_SIZE] == Header() && Initialized(s)[SECTOR_SIZE..] == s[SECTOR_SIZE..]
    ensures HasSignature(Initialized(s))
    ensures Scan(Initialized(s)) == Readout(Header(), 1)
  {
    var t := Initialized(s);
    assert t[..SECTOR_SIZE] == Header();
    assert t[..|SIGNATURE|] == Header()[..|SIGNATURE|];
    ScanOfFormattedMedium(t);
  }

  /**
   * After an erase let through by the erase gate, a medium of at least one
   * sector is a NoFS again whose read-out is its header alone.
   */
  lemma {:induction false} ErasedAndInitializedIsFormatted(s: seq<bv8>, count: Option<int>)
    requires |s| >= SECTOR_SIZE
    ensures HasSignature(ErasedAndInitialized(s, count))
    ensures Scan(ErasedAndInitialized(s, count)) == Readout(Header(), 1)
  {
    var z := ZeroSectors(s, ErasedSectorCount(|s|, count));
    assert |z| == |s|;
    InitializedIsFormatted(z);
  }

  /**
   * Layout after the erase gate lets an erase through: sector 0 is the
   * header, the other erased sectors are fill, and every byte from the end
   * of the last erased sector on is as before. A medium smaller than a
   * sector is left as it was.
   */
  lemma {:induction false} ErasedAndInitializedLayout(s: seq<bv8>, count: Option<int>, i: nat)
    requires i < |s|
    ensures |ErasedAndInitialized(s, count)| == |s|
    ensures var k := ErasedSectorCount(|s|, count);
      var t := ErasedAndInitialized(s, count);
      t[i] == (if i < SECTOR_SIZE <= |s| then Header()[i]
               else if i < k * SECTOR_SIZE then FILL
               else s[i])
  {
    var k := ErasedSectorCount(|s|, count);
    var z := ZeroSectors(s, k);
    assert |z| == |s|;
    if i >= k * SECTOR_SIZE {
      assert z[i] == s[i];
    }
  }

  /**
   * On a medium whose capacity is a whole number of sectors, `-e` zeroes
   * exactly the bytes the read loop wrote out.
   */
  lemma {:induction false} EraseCoversReadout(s: seq<bv8>)
    requires |s| % SECTOR_SIZE == 0
    ensures ErasedSectorCount(|s|, Some(Scan(s).sectors)) * SECTOR_SIZE == |Scan(s).bytes|
  {
    ScanEmitsWholeSectors(s);
    var n := Scan(s).sectors;
    var fit := |s| / SECTOR_SIZE;
    assert fit * SECTOR_SIZE == |s|;
    if n <= fit {
      assert n * SECTOR_SIZE <= |s|;
    } else {
      assert (n - 1) * SECTOR_SIZE <= fit * SECTOR_SIZE;
    }
  }

  /**
   * A consequence of the model's device, whose capacity is fixed and whose
   * writes are all-or-nothing: on a medium that is not a whole number of
   * sectors and holds no terminal byte, `-e` leaves the final partial
   * sector that was written out untouched, because a whole-sector write
   * does not fit there. Real block devices have no partial final sector.
   */
  lemma {:induction false} EraseMissesPartialTail(s: seq<bv8>)
    requires |s| % SECTOR_SIZE != 0 && TERMINAL !in s
    ensures ErasedSectorCount(|s|, Some(Scan(s).sectors)) * SECTOR_SIZE < |Scan(s).bytes|
  {
    ScanStopsAtFirstShortOrTerminalSector(s);
    ScanEmitsWholeSectors(s);
    var n := Scan(s).sectors;
    var lo := (n - 1) * SECTOR_SIZE;
    NoTerminalInSlice(s, lo, Min(n * SECTOR_SIZE, |s|));
    assert |s| < n * SECTOR_SIZE;
    assert |Scan(s).bytes| == |s|;
    var fit := |s| / SECTOR_SIZE;
    assert fit * SECTOR_SIZE < |s|;
  }
}
