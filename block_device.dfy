/**
 * An abstract block device: a fixed-capacity byte array with a current
 * position, in the way a Python file object opened on a raw device node
 * behaves. `Read` returns at most the requested number of bytes (fewer only
 * at the end of the medium); `Write` fails instead of running past the end
 * of the medium, which is how the program observes the `IOError` a device
 * raises at its boundary.
 */
module BlockDevice {
  import opened Basics

  /** `s` with the bytes at `at .. at + |buf|` replaced by `buf`. */
  function Splice(s: seq<bv8>, at: nat, buf: seq<bv8>): (r: seq<bv8>)
    requires at + |buf| <= |s|
  {
    s[..at] + buf + s[at + |buf|..]
  }

  class Device {
    /** The medium; its length is the capacity, which never changes. */
    const data: array<bv8>
    /** The handle's position, advanced by reads and writes. */
    var pos: nat
    /** How many `read` and `write` calls have been made on the handle. */
    ghost var readCalls: nat
    ghost var writeCalls: nat

    ghost predicate Valid()
      reads this
    {
      pos <= data.Length
    }

    /** A freshly opened handle on a medium holding `contents`. */
    constructor (contents: seq<bv8>)
      ensures Valid() && fresh(data)
      ensures data[..] == contents && pos == 0
      ensures readCalls == 0 && writeCalls == 0
    {
      data := new bv8[|contents|](i requires 0 <= i < |contents| => contents[i]);
      pos := 0;
      readCalls, writeCalls := 0, 0;
    }

    /** `seek(0)` */
    method Rewind()
      modifies this`pos
      ensures Valid() && pos == 0
    {
      pos := 0;
    }

    /** `read(n)`: the next `n` bytes, or what is left of the medium. */
    method Read(n: nat) returns (buf: seq<bv8>)
      requires Valid()
      modifies this`pos, this`readCalls
      ensures Valid()
      ensures buf == data[old(pos)..Min(old(pos) + n, data.Length)]
      ensures |buf| <= n && (|buf| < n <==> old(pos) + n > data.Length)
      ensures pos == old(pos) + |buf| && readCalls == old(readCalls) + 1
    {
      var end := Min(pos + n, data.Length);
      buf := data[pos..end];
      pos := end;
      readCalls := readCalls + 1;
    }

    /**
     * `write(buf)`: succeeds and advances the position when `buf` fits before
     * the end of the medium; otherwise fails and changes nothing.
     */
    method Write(buf: seq<bv8>) returns (ok: bool)
      requires Valid()
      modifies this`pos, this`writeCalls, data
      ensures Valid() && writeCalls == old(writeCalls) + 1
      ensures ok <==> old(pos) + |buf| <= data.Length
      ensures ok ==> data[..] == Splice(old(data[..]), old(pos), buf) && pos == old(pos) + |buf|
      ensures !ok ==> data[..] == old(data[..]) && pos == old(pos)
    {
      writeCalls := writeCalls + 1;
      ok := pos + |buf| <= data.Length;
      if ok {
        var at := pos;
        forall i | 0 <= i < |buf| {
          data[at + i] := buf[i];
        }
        assert data[..] == Splice(old(data[..]), at, buf);
        pos := pos + |buf|;
      }
    }
  }
}
