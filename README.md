# NoFS raw reader, modelled in Dafny

RawRead is a command-line tool that reads a raw block device (an SD card,
say) in the "NoFS" marker format. A NoFS medium starts with the ASCII
signature `k621.de`, and its data runs until the first terminal byte `0x03`.
The tool does four things:

- it probes a device for the signature;
- it copies the device to an output, sector by sector, until a sector that
  is short or holds the terminal byte;
- it can erase the sectors it read (`-e`) or the whole device (`-E`), but
  only on a valid NoFS or when forced (`-f`);
- it can initialize a device (`-c`) by writing the header sector: the
  signature, the terminal byte, then zero bytes up to 512 bytes.

This project models those on-device steps of `rawread.py` against an
abstract block device, and proves what they leave on the device and in the
output.

- `basics.dfy` (module `Basics`): `Option`, which stands for Python's `None`, and `Min`.
- `block_device.dfy` (module `BlockDevice`): class `Device`. It holds a
  fixed-capacity `array<bv8>` and a position. `Read(n)` returns at most `n`
  bytes. `Write(buf)` returns `false`, and changes nothing, when `buf` would
  run past the end of the medium; this is the `IOError` the program gets at
  the device's boundary. Ghost counters record how many read and write
  calls were made.
- `nofs_format.dfy` (module `NofsFormat`): the constants `SECTOR_SIZE`
  (512), `TERMINAL` (0x03), `FILL` (0x00) and `SIGNATURE`, and the header
  sector. It also holds the functions that give the byte-level meaning of
  each operation, with the lemmas about them:
  - `Scan`: the read loop;
  - `ZeroSectors` and `ErasedSectorCount`: `erase_sectors`;
  - `Initialized`: `initialize_nofs`;
  - `ErasedAndInitialized`: the erase gate's erase followed by
    initialization.
- `raw_read.dfy` (module `RawRead`): the imperative code, written as methods
  on a `Device`, with loops and invariants. Each method is proved against
  the functions above: `erase_sectors`, `initialize_nofs`, the signature
  probe, the read loop, the erase gate, and the part of `main` that runs
  them in order.
- `device_names.dfy` (module `DeviceNames`): `get_possible_devices`, as a
  loop method proved equal to a function of the platform name.

The model follows `rawread.py` as written:

- the header is the signature, `0x03`, then 504 zero bytes;
- the read loop emits every sector it reads whole, header included;
- erasing writes zero bytes from offset 0 and then rewrites the header.

A freshly initialized device therefore reads out as exactly its header
sector: its terminal byte at offset 7 ends the read loop after sector 0.

## Model

| member | source | states |
|---|---|---|
| `BlockDevice.Device.constructor` | rawread.py:244 | A freshly opened handle on a medium is at offset 0, and no reads or writes have been made on it. |
| `BlockDevice.Device.Rewind` | rawread.py:248 | `seek(0)` puts the position at offset 0. |
| `BlockDevice.Device.Read` | rawread.py:266 | `read(n)` returns the next `min(n, bytes left)` bytes and advances past them. The result is short exactly when the medium ends first. |
| `BlockDevice.Device.Write` | rawread.py:91 | `write(buf)` succeeds exactly when `buf` fits before the end of the medium. On success it replaces those bytes and advances; on failure it changes nothing. Every call counts as one write. |
| `NofsFormat.Header` | rawread.py:78-80 | The first sector is 512 bytes: `k621.de`, then `0x03` at offset 7, then zeros. The signature holds no `0x03`, so offset 7 is the header's first terminal byte. |
| `NofsFormat.HasSignature` | rawread.py:247 | Defines the signature test: the medium has at least 7 bytes and its first 7 are `k621.de`. The same comparison appears at rawread.py:148. |
| `NofsFormat.Scan` | rawread.py:262-269 | Defines the read loop's output and `sectors_read` for a medium read from offset 0. Its contract: at least one sector is counted, and the output is a prefix of the medium. |
| `NofsFormat.ZeroSectors` | rawread.py:86-96 | Defines the medium after `erase_sectors` zeroed `k` sectors. The length is unchanged, the first `k` sectors are zero, and every later byte is unchanged. |
| `NofsFormat.Initialized` | rawread.py:72-82 | Defines the medium after `initialize_nofs`. The length is unchanged. A medium of at least one sector then has the signature. A smaller medium is left as it was. |
| `NofsFormat.ErasedAndInitialized` | rawread.py:278-279 | Defines the medium after the gate's `erase_sectors` followed by `initialize_nofs`. The length is unchanged, and a medium of at least one sector has the signature afterwards. |
| `RawRead.EraseCount` | rawread.py:278 | Defines the `sector_count` passed to `erase_sectors`: `sectors_read` with `-e`, and `None` with `-E`. |
| `DeviceNames.PlatformOf` | rawread.py:60-66 | Defines the `startswith` dispatch on the platform name. It gives win32, linux or darwin exactly when the name starts with that prefix, both directions. |
| `DeviceNames.DeviceName` | rawread.py:62-68 | Defines the `i`-th path on each platform: `\\.\PhysicalDrive%d` and `/dev/disk%d` of `i+1`, and `/dev/sd` followed by `chr(97+i)`. |
| `NofsFormat.ErasedSectorCount` | rawread.py:86-96 | `erase_sectors` zeroes at most as many sectors as fit in the capacity, and at most `sector_count` when that is positive. It zeroes fewer than fit only when a positive count stops it. |
| `NofsFormat.ScanEmitsWholeSectors` | rawread.py:262-269 | The read-out is the medium's prefix of `sectors_read` whole sectors, cut only by the end of the medium and never at the terminal byte. `sectors_read` is at least 1. |
| `NofsFormat.ScanStopsAtFirstShortOrTerminalSector` | rawread.py:265-267 | Every sector before the last one read is whole and free of `0x03`. The last one is short or holds `0x03`. |
| `NofsFormat.StopsAtUnique` | rawread.py:265-267 | Only one sector count can satisfy that stopping rule. |
| `NofsFormat.ScanSectorsCharacterized` | rawread.py:263-269 | `sectors_read` equals `k` exactly when `k` satisfies the stopping rule, both directions. |
| `NofsFormat.ScanLengthBounds` | rawread.py:263-269 | The output length lies between `(sectors_read-1)*512` and `sectors_read*512`. It reaches the lower end only when the last read found the medium exhausted. The output is never longer than the medium. |
| `NofsFormat.ScanLoopStep` | rawread.py:265-269 | One turn of the read loop keeps its invariant: the output is the prefix of the medium read so far, and the rest of the scan continues from there. |
| `NofsFormat.ScanOfFormattedMedium` | rawread.py:265-269 | A medium whose sector 0 is the header reads out as the header alone, with `sectors_read == 1`. |
| `NofsFormat.InitializedIsFormatted` | rawread.py:72-82 | After `initialize_nofs` on a medium of at least one sector, bytes 0..511 are the header and every later byte is unchanged. The medium then passes the signature probe and reads out as its header. |
| `NofsFormat.ErasedAndInitializedIsFormatted` | rawread.py:276-279 | After an erase let through by the gate, a medium of at least one sector passes the probe again and reads out as its header alone. |
| `NofsFormat.ErasedAndInitializedLayout` | rawread.py:276-279 | After the gate's erase: sector 0 is the header, the other erased sectors are zero, and every byte after the last erased sector is unchanged. A medium smaller than a sector is untouched. |
| `NofsFormat.EraseCoversReadout` | rawread.py:278 | On a medium that is a whole number of sectors, `-e` zeroes exactly the bytes that were read out. |
| `NofsFormat.EraseMissesPartialTail` | rawread.py:278 | A consequence of the model's fixed-capacity, all-or-nothing `Write` (see the line on partial writes under "Left out"): on a medium that is not a whole number of sectors and holds no `0x03`, `-e` leaves the final partial sector unerased even though it was read out. Real block devices have no partial final sector. |
| `RawRead.EraseSectors` | rawread.py:86-96 | Rewinds, then zeroes exactly `ErasedSectorCount` sectors from offset 0 and leaves every later byte unchanged. With a positive count it makes at most that many write calls. Without a count it stops at the first failing write, and it terminates on any finite medium. |
| `RawRead.InitializeNofs` | rawread.py:72-82 | Leaves the medium as `Initialized` of the old one. The header write succeeds exactly when the capacity is at least one sector. |
| `RawRead.ProbeSignature` | rawread.py:245-248 | `valid_nofs` holds exactly when the first 7 bytes are `k621.de`. The position is back at 0 afterwards. |
| `RawRead.ReadSectors` | rawread.py:262-269 | Starting at offset 0, returns the output and `sectors_read` given by `Scan` of the medium. The output is the bytes between offset 0 and the final position. One read call is made per counted sector. |
| `RawRead.EraseGate` | rawread.py:276-281 | An erase happens exactly when `-e` or `-E` is given and the device is a valid NoFS or `-f` is set. Then the medium becomes `ErasedAndInitialized` with `sectors_read` (`-e`) or no count (`-E`). Otherwise no write call is made and the medium and position are unchanged. |
| `RawRead.ReadOutAndErase` | rawread.py:237-281 | The flow of `main` on an opened input. `valid_nofs` is the signature test of the medium, whether it came from the device search or the probe. The output is the scan of the medium from offset 0. The final medium is what the erase gate prescribes. |
| `DeviceNames.Decimal` | rawread.py:62 | `%d` of a natural number has length 1 exactly for numbers below 10, and it ends in the number's last digit. |
| `DeviceNames.DecimalInjective` | rawread.py:62 | Different numbers print differently. |
| `DeviceNames.PossibleDevices` | rawread.py:58-70 | Gives 16 candidates on win32, linux and darwin, and an empty list on any other platform. |
| `DeviceNames.GetPossibleDevices` | rawread.py:58-70 | The append loop builds exactly `PossibleDevices` of the platform name. |
| `DeviceNames.DeviceNameInjective` | rawread.py:60-68 | On one platform, two candidate indices give the same path only when they are equal. |
| `DeviceNames.PossibleDevicesDistinct` | rawread.py:58-70 | The candidate paths are pairwise distinct on every platform. |
| `DeviceNames.LinuxDevicesRange` | rawread.py:63-65 | On Linux the candidates run from `/dev/sda` to `/dev/sdp`. |
| `DeviceNames.NumberedDevicesRange` | rawread.py:60-68 | On Windows and macOS the candidates are numbered 1 to 16. |

## Left out

- Opening device paths, `flush`, `close`, and writing the output to stdout or to a file. The output is returned as a byte sequence.
- `get_removable_devices` (rawread.py:98-141). It depends on interactive prompts and on whether real device nodes can be opened.
- `get_nofs_device` (rawread.py:143-157). It opens real paths. Its only logic is the 7-byte signature comparison, which `HasSignature` and `ProbeSignature` model. Its result enters `ReadOutAndErase` as the `detected` flag, together with the fact that the device it found has the signature.
- Option parsing, the flag-conflict checks, the `-c` device selection (rawread.py:162-228), `sys.exit` codes and all printed messages. The `-c` path's effect on the device is `InitializeNofs`.
- The platform string is a parameter: `sys.platform` is not read.
- Python 2 buffered writes, where an `IOError` can surface at `flush`, and partial writes at the end of a medium. A write either fits and happens completely, or fails and changes nothing.
- Regular files used as input, where writes past the end extend the file instead of failing. `erase_sectors` without a count then stops only when the host file system is full and the `IOError` is caught (rawread.py:95). On a file that is not a whole number of sectors, the write that does not fit extends the file and zeroes the tail. The model's medium always has a fixed capacity.
- `IOError` raised by `read`. It would end the program, and the model's reads never fail.
- RawRead.ReadSectors: requires the position to be 0. `main` only runs the read loop on a handle that was just opened or rewound by the probe.
- RawRead.ProbeSignature: requires the position to be 0, because the probe runs on a freshly opened handle.
