/** The kernel side of one open descriptor. Every answer the kernel may give is left open. */
module Kernel {
  import opened Bytes

  const EINTR: int := 4
  const EINVAL: int := 22

  /** What has gone wrong so far; entries only ever move one way. */
  datatype Account = Account(faults: nat, shortWrites: nat, readInterrupts: nat) {
    predicate Later(before: Account) {
      faults >= before.faults && shortWrites >= before.shortWrites && readInterrupts >= before.readInterrupts
    }
  }

  /**
   * A regular file reached through one descriptor.
   * `faults` counts failing answers (other than interruptions), `shortWrites` writes that took
   * fewer bytes than offered, `readInterrupts` interrupted reads. `patience` bounds how many more
   * times in all the kernel may interrupt a read or a write, fail a write or take nothing of one.
   * `errno` is the error number of the last answer that was one.
   */
  class Descriptor {
    var contents: seq<byte>
    var offset: nat
    const append: bool
    var open: bool
    var patience: nat
    ghost var faults: nat
    ghost var shortWrites: nat
    ghost var readInterrupts: nat
    ghost var errno: int

    constructor (contents: seq<byte>, append: bool, patience: nat)
      ensures this.contents == contents && this.append == append && this.patience == patience
      ensures offset == 0 && open && faults == 0 && shortWrites == 0 && readInterrupts == 0
    {
      this.contents, this.append, this.patience := contents, append, patience;
      offset, open := 0, true;
      faults, shortWrites, readInterrupts, errno := 0, 0, 0, 0;
    }

    ghost function Books(): Account
      reads this`faults, this`shortWrites, this`readInterrupts
    {
      Account(faults, shortWrites, readInterrupts)
    }

    /** Bytes between the kernel offset and the end of the file. */
    function Left(): (n: nat)
      reads this`contents, this`offset
    {
      if offset <= |contents| then |contents| - offset else 0
    }

    /** Where the next write lands. */
    function WriteAt(): (at: nat)
      reads this`contents, this`offset
    {
      if append then |contents| else offset
    }

    /** read(2): an interruption, a failure, or any non-empty part of what is left (0 at the end). */
    method Read(buf: array<byte>, at: nat, count: nat) returns (n: int)
      requires at + count <= buf.Length
      modifies this`offset, this`patience, this`faults, this`readInterrupts, this`errno, buf
      ensures n < 0 ==> errno == -n
      ensures -4096 < n && (n <= 0 ==> offset == old(offset))
      ensures readInterrupts == old(readInterrupts) + (if n == -EINTR then 1 else 0)
      ensures n == -EINTR ==> patience < old(patience) && faults == old(faults)
      ensures n != -EINTR ==> patience == old(patience)
      ensures n < 0 && n != -EINTR ==> faults == old(faults) + 1
      ensures n >= 0 ==> faults == old(faults) && offset == old(offset) + n
      ensures n >= 0 ==> n <= Min(count, old(Left())) && (n == 0 <==> Min(count, old(Left())) == 0)
      ensures Copied(old(buf[..]), buf[..], at, contents, old(offset), Max(0, n))
    {
      var most := Min(count, Left());
      if * {
        if patience > 0 {
          patience := patience - 1;
          readInterrupts := readInterrupts + 1;
          errno := EINTR;
          return -EINTR;
        }
      } else if * {
        var e: int :| 0 < e < 4096 && e != EINTR;
        faults := faults + 1;
        errno := e;
        return -e;
      }
      if most == 0 { return 0; }
      var m: nat :| 1 <= m <= most;
      forall i | 0 <= i < m { buf[at + i] := contents[offset + i]; }
      offset := offset + m;
      n := m;
    }

    /** write(2): an interruption, a failure, or any leading part of `data`. */
    method Write(data: seq<byte>) returns (n: int)
      modifies this`contents, this`offset, this`patience, this`faults, this`shortWrites, this`errno
      ensures n < 0 ==> errno == -n
      ensures n <= |data| && (n < 0 ==> -4096 < n && contents == old(contents) && offset == old(offset))
      ensures n == -EINTR ==> patience < old(patience) && faults == old(faults) && shortWrites == old(shortWrites)
      ensures n < 0 && n != -EINTR ==>
        faults == old(faults) + 1 && shortWrites == old(shortWrites) && patience < old(patience)
      ensures n >= 0 ==> faults == old(faults) && contents == Overwrite(old(contents), old(WriteAt()), data[..n])
      ensures n >= 0 ==> offset == (if n == 0 then old(offset) else old(WriteAt()) + n)
      ensures n >= 0 ==> shortWrites == old(shortWrites) + (if n < |data| then 1 else 0)
      ensures n >= 0 ==> if n == 0 < |data| then patience < old(patience) else patience == old(patience)
    {
      if patience > 0 {
        if * {
          patience := patience - 1;
          errno := EINTR;
          return -EINTR;
        } else if * {
          var e: int :| 0 < e < 4096 && e != EINTR;
          patience := patience - 1;
          faults := faults + 1;
          errno := e;
          return -e;
        }
      }
      var m: nat :| m <= |data|;
      if m == 0 < |data| {
        if patience == 0 { m := |data|; } else { patience := patience - 1; }
      }
      if m < |data| { shortWrites := shortWrites + 1; }
      if m > 0 {
        var at := WriteAt();
        contents := Overwrite(contents, at, data[..m]);
        offset := at + m;
      }
      n := m;
    }

    /** lseek(2) with SEEK_SET: a negative offset is refused, any other may succeed or fail. */
    method Lseek(pos: int) returns (r: int)
      modifies this`offset, this`faults, this`errno
      ensures r < 0 ==> errno == -r
      ensures r == pos || -4096 < r < 0
      ensures pos < 0 ==> r == -EINVAL && faults == old(faults)
      ensures r < 0 ==> offset == old(offset)
      ensures 0 <= pos && r < 0 ==> faults == old(faults) + 1
      ensures 0 <= r ==> r == pos && offset == pos && faults == old(faults)
    {
      if pos < 0 {
        errno := EINVAL;
        return -EINVAL;
      }
      if * {
        var e: int :| 0 < e < 4096;
        faults := faults + 1;
        errno := e;
        return -e;
      }
      offset := pos;
      r := pos;
    }

    /** fstat(2), of which only the size is modelled. */
    method Fstat() returns (rc: int, size: nat)
      modifies this`faults, this`errno
      ensures -4096 < rc <= 0 && (rc < 0 ==> errno == -rc)
      ensures rc == 0 ==> size == |contents| && faults == old(faults)
      ensures rc < 0 ==> faults == old(faults) + 1 && size == 0
    {
      if * {
        var e: int :| 0 < e < 4096;
        faults := faults + 1;
        errno := e;
        return -e, 0;
      }
      return 0, |contents|;
    }

    /** close(2). */
    method Close() returns (rc: int)
      modifies this`open, this`faults, this`errno
      ensures -4096 < rc <= 0 && (rc < 0 ==> errno == -rc)
      ensures rc == 0 ==> !open && faults == old(faults)
      ensures rc < 0 ==> open == old(open) && faults == old(faults) + 1
    {
      if * {
        var e: int :| 0 < e < 4096;
        faults := faults + 1;
        errno := e;
        return -e;
      }
      open := false;
      rc := 0;
    }
  }
}
