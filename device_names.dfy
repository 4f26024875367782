/**
 * The candidate device paths `get_possible_devices` lists for the running
 * platform: the first MAX_DEVICES physical drives on Windows, SCSI disks
 * on Linux and disks on macOS, and nothing anywhere else.
 */
module DeviceNames {

  /** MAX_DEVICES */
  const MAX_DEVICES: nat := 16

  /** The branch `get_possible_devices` takes on `sys.platform`. */
  datatype Platform = Win32 | Linux | Darwin | Unsupported

  function PlatformOf(name: string): (p: Platform)
    ensures p == Win32 <==> "win32" <= name
    ensures p == Linux <==> "linux" <= name
    ensures p == Darwin <==> "darwin" <= name
  {
    if "win32" <= name then assert name[0] == 'w'; Win32
    else if "linux" <= name then assert name[0] == 'l'; Linux
    else if "darwin" <= name then assert name[0] == 'd'; Darwin
    else Unsupported
  }

  function Digit(d: nat): char
    requires d < 10
  {
    ('0' as int + d) as char
  }

  /** Python's `"%d" % n` for a natural number: no leading zeros. */
  function Decimal(n: nat): (r: string)
    ensures 1 <= |r|
    ensures |r| == 1 <==> n < 10
    ensures r[|r| - 1] == Digit(n % 10)
  {
    if n < 10 then [Digit(n)] else Decimal(n / 10) + [Digit(n % 10)]
  }

  /** Different numbers are printed differently. */
  lemma {:induction false} DecimalInjective(a: nat, b: nat)
    requires Decimal(a) == Decimal(b)
    ensures a == b
    decreases a
  {
    var da := Decimal(a);
    assert a % 10 == b % 10;
    if 10 <= a {
      assert 10 <= b;
      assert Decimal(a / 10) == da[..|da| - 1] == Decimal(b / 10);
      DecimalInjective(a / 10, b / 10);
    }
  }

  /** The `i`-th candidate path (counting from 0) on a supported platform. */
  function DeviceName(p: Platform, i: nat): string
    requires p != Unsupported && i < MAX_DEVICES
  {
    match p
    case Win32 => "\\\\.\\PhysicalDrive" + Decimal(i + 1)
    case Linux => "/dev/sd" + [(97 + i) as char]
    case Darwin => "/dev/disk" + Decimal(i + 1)
  }

  /** The list `get_possible_devices` returns on the platform named `platform`. */
  function PossibleDevices(platform: string): (devices: seq<string>)
    ensures PlatformOf(platform) == Unsupported <==> devices == []
    ensures PlatformOf(platform) != Unsupported ==> |devices| == MAX_DEVICES
  {
    var p := PlatformOf(platform);
    if p == Unsupported then []
    else seq(MAX_DEVICES, i requires 0 <= i < MAX_DEVICES => DeviceName(p, i))
  }

  /** `get_possible_devices`: append one candidate per loop turn. */
  method GetPossibleDevices(platform: string) returns (devices: seq<string>)
    ensures devices == PossibleDevices(platform)
  {
    devices := [];
    var p := PlatformOf(platform);
    if p != Unsupported {
      for i := 0 to MAX_DEVICES
        invariant |devices| == i
        invariant forall j :: 0 <= j < i ==> devices[j] == DeviceName(p, j)
      {
        devices := devices + [DeviceName(p, i)];
      }
    }
  }

  lemma {:induction false} DeviceNameInjective(p: Platform, i: nat, j: nat)
    requires p != Unsupported && i < MAX_DEVICES && j < MAX_DEVICES
    requires DeviceName(p, i) == DeviceName(p, j)
    ensures i == j
  {
    var a, b := DeviceName(p, i), DeviceName(p, j);
    match p
    case Win32 =>
      assert a[|"\\\\.\\PhysicalDrive"|..] == Decimal(i + 1);
      assert b[|"\\\\.\\PhysicalDrive"|..] == Decimal(j + 1);
      DecimalInjective(i + 1, j + 1);
    case Linux =>
      assert a[|"/dev/sd"|] == (97 + i) as char;
      assert b[|"/dev/sd"|] == (97 + j) as char;
    case Darwin =>
      assert a[|"/dev/disk"|..] == Decimal(i + 1);
      assert b[|"/dev/disk"|..] == Decimal(j + 1);
      DecimalInjective(i + 1, j + 1);
  }

  /** The candidate paths are pairwise distinct on every platform. */
  lemma {:induction false} PossibleDevicesDistinct(platform: string)
    ensures var devices := PossibleDevices(platform);
      forall i, j :: 0 <= i < j < |devices| ==> devices[i] != devices[j]
  {
    var p := PlatformOf(platform);
    if p != Unsupported {
      forall i, j | 0 <= i < j < MAX_DEVICES
        ensures DeviceName(p, i) != DeviceName(p, j)
      {
        if DeviceName(p, i) == DeviceName(p, j) {
          DeviceNameInjective(p, i, j);
        }
      }
    }
  }

  /** On Linux the candidates run from /dev/sda to /dev/sdp. */
  lemma {:induction false} LinuxDevicesRange(platform: string)
    requires "linux" <= platform
    ensures PossibleDevices(platform)[0] == "/dev/sda"
    ensures PossibleDevices(platform)[MAX_DEVICES - 1] == "/dev/sdp"
  {
    assert platform[0] == "linux"[0];
    assert PlatformOf(platform) == Linux;
  }

  /** On Windows and macOS the candidates are numbered from 1 to 16. */
  lemma {:induction false} NumberedDevicesRange(platform: string)
    requires "win32" <= platform || "darwin" <= platform
    ensures var devices := PossibleDevices(platform);
      var prefix := if "win32" <= platform then "\\\\.\\PhysicalDrive" else "/dev/disk";
      devices[0] == prefix + "1" && devices[MAX_DEVICES - 1] == prefix + "16"
  {
    assert Decimal(16) == "16";
  }
}
