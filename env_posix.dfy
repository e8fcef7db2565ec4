/** The POSIX environment: errno translation, the admission counter that bounds
    how many descriptors and mappings are held at once, and the file classes
    built on the read, pread, write, open, lseek, close and munmap system calls.

    System calls are not executed. The kernel's answers are given to each
    method as scripted replies, in the order the calls are made. The file
    methods return the trace of the calls they issue; the random-access
    file's constructor and destructor record their closes in the ghost field
    `closed`, and the Limiter issues no system call. */
module EnvPosix {
  import opened Slices
  import opened Statuses
  import opened Options

  // errno values of Linux.
  const ENOENT := 2
  const EINTR := 4
  const EINVAL := 22

  /** Size of the write-combining buffer of a writable file. */
  const WritableFileBufferSize := 65536

  /** A system call, as recorded in a trace. */
  datatype Syscall =
    | Open(path: string)
    | Close(fd: int)
    | Read(fd: int, count: nat)
    | Pread(fd: int, count: nat, offset: nat)
    | Write(fd: int, data: seq<byte>)
    | Lseek(fd: int, offset: nat)
    | Munmap(length: nat)

  /** The kernel's answer to open, lseek or write: a non-negative value, or
      -1 with errno set. */
  datatype SysReply = Done(value: nat) | Failed(errno: int)

  /** The kernel's answer to read or pread: the bytes read, or -1 with errno set. */
  datatype ReadReply = Bytes(data: seq<byte>) | ReadFailed(errno: int)

  /** The bytes a read of at most n bytes delivers: the kernel never returns
      more than it was asked for. */
  function Delivered(data: seq<byte>, n: nat): (d: seq<byte>)
    ensures |d| <= n && |d| <= |data|
    ensures d == data[..|d|]
    ensures |data| <= n ==> d == data
  {
    if |data| <= n then data else data[..n]
  }

  /** Translates an errno value into a status: NotFound for ENOENT, IOError
      for everything else, both carrying the context and the errno's text. */
  function PosixError(context: string, errorNumber: int): (s: Status)
    ensures !s.IsOk()
    ensures s.NotFound? <==> errorNumber == ENOENT
    ensures s.IOError? <==> errorNumber != ENOENT
    ensures s.msg == context && s.detail == ErrnoText(errorNumber)
  {
    if errorNumber == ENOENT then NotFound(context, ErrnoText(errorNumber))
    else IOError(context, ErrnoText(errorNumber))
  }

  // ---------------------------------------------------------------------
  // Limiter

  /** Bounds the number of a scarce resource (descriptors, mappings) held at
      once. The counter is atomic in the source; this model is sequential. */
  class Limiter {
    ghost const maxAcquires: int
    var acquiresAllowed: int

    ghost predicate Valid()
      reads this
    {
      0 <= acquiresAllowed <= maxAcquires
    }

    constructor (maxAcquires: int)
      requires maxAcquires >= 0
      ensures Valid() && this.maxAcquires == maxAcquires
      ensures acquiresAllowed == maxAcquires
    {
      this.maxAcquires := maxAcquires;
      acquiresAllowed := maxAcquires;
    }

    /** Takes one unit when one is left; otherwise undoes its decrement and
        reports false. */
    method Acquire() returns (ok: bool)
      requires Valid()
      modifies this
      ensures Valid()
      ensures ok <==> old(acquiresAllowed) > 0
      ensures acquiresAllowed == if ok then old(acquiresAllowed) - 1 else old(acquiresAllowed)
    {
      var oldAcquiresAllowed := acquiresAllowed;
      acquiresAllowed := acquiresAllowed - 1;
      if oldAcquiresAllowed > 0 {
        return true;
      }
      var preIncrementAllowed := acquiresAllowed;
      acquiresAllowed := acquiresAllowed + 1;
      assert preIncrementAllowed < maxAcquires;
      return false;
    }

    /** Gives back a unit obtained by a successful Acquire. */
    method Release()
      requires Valid() && acquiresAllowed < maxAcquires
      modifies this
      ensures Valid()
      ensures acquiresAllowed == old(acquiresAllowed) + 1
    {
      acquiresAllowed := acquiresAllowed + 1;
    }
  }

  /** With a budget of n and no releases, the first n Acquires succeed and
      the next one fails; after one Release an Acquire succeeds again. */
  method LimiterBudget(n: nat) returns (grants: seq<bool>, afterRelease: bool)
    requires n > 0
    ensures |grants| == n + 1
    ensures forall i :: 0 <= i < n ==> grants[i]
    ensures !grants[n]
    ensures afterRelease
  {
    var limiter := new Limiter(n);
    grants := [];
    while |grants| < n + 1
      invariant |grants| <= n + 1
      invariant limiter.Valid() && limiter.maxAcquires == n
      invariant limiter.acquiresAllowed == if |grants| <= n then n - |grants| else 0
      invariant forall i :: 0 <= i < |grants| && i < n ==> grants[i]
      invariant |grants| == n + 1 ==> !grants[n]
    {
      var ok := limiter.Acquire();
      grants := grants + [ok];
    }
    limiter.Release();
    afterRelease := limiter.Acquire();
  }

  // ---------------------------------------------------------------------
  // Sequential files

  /** Index of the first reply that is not an interrupted call, or the
      number of replies when every one of them is. */
  function FirstUninterrupted(replies: seq<ReadReply>): (j: nat)
    ensures j <= |replies|
    ensures forall i :: 0 <= i < j ==> replies[i] == ReadFailed(EINTR)
    ensures j < |replies| ==> replies[j] != ReadFailed(EINTR)
  {
    if |replies| == 0 || replies[0] != ReadFailed(EINTR) then 0
    else 1 + FirstUninterrupted(replies[1..])
  }

  /** The kernel's answer to the k-th read: scripted, then end of file. */
  function ReadReplyAt(replies: seq<ReadReply>, k: nat): ReadReply
  {
    if k < |replies| then replies[k] else Bytes([])
  }

  class PosixSequentialFile {
    const fd: int
    const filename: string

    constructor (filename: string, fd: int)
      ensures this.fd == fd && this.filename == filename
    {
      this.fd := fd;
      this.filename := filename;
    }

    /** Reads up to n bytes, retrying while the call is interrupted. */
    method Read(n: nat, replies: seq<ReadReply>) returns (s: Status, fragment: seq<byte>, calls: seq<Syscall>)
      ensures var j := FirstUninterrupted(replies);
        && |calls| == j + 1
        && (forall i :: 0 <= i < |calls| ==> calls[i] == Syscall.Read(fd, n))
        && match ReadReplyAt(replies, j)
           case Bytes(d) => s == OK && fragment == Delivered(d, n)
           case ReadFailed(e) => s == PosixError(filename, e) && fragment == []
    {
      s, fragment, calls := OK, [], [];
      var i := 0;
      while true
        invariant 0 <= i <= |replies|
        invariant |calls| == i
        invariant forall k :: 0 <= k < i ==> calls[k] == Syscall.Read(fd, n)
        invariant forall k :: 0 <= k < i ==> replies[k] == ReadFailed(EINTR)
        decreases |replies| - i
      {
        calls := calls + [Syscall.Read(fd, n)];
        var reply := ReadReplyAt(replies, i);
        if reply.ReadFailed? {
          if reply.errno == EINTR {
            i := i + 1;
            continue;
          }
          s := PosixError(filename, reply.errno);
          break;
        }
        fragment := Delivered(reply.data, n);
        break;
      }
    }

    /** Moves the file position forward by n bytes. */
    method Skip(n: nat, reply: SysReply) returns (s: Status, calls: seq<Syscall>)
      ensures calls == [Lseek(fd, n)]
      ensures s.IsOk() <==> reply.Done?
      ensures reply.Failed? ==> s == PosixError(filename, reply.errno)
    {
      calls := [Lseek(fd, n)];
      if reply.Failed? {
        return PosixError(filename, reply.errno), calls;
      }
      s := OK;
    }

    /** The destructor closes the descriptor. */
    method Destroy() returns (calls: seq<Syscall>)
      ensures calls == [Close(fd)]
    {
      calls := [Close(fd)];
    }
  }

  // ---------------------------------------------------------------------
  // Random-access files over a descriptor

  class PosixRandomAccessFile {
    const hasPermanentFd: bool
    const fd: int
    const limiter: Limiter
    const fileName: string
    /** Descriptors this object has closed, in order. */
    ghost var closed: seq<int>

    /** Keeps fd open for the object's lifetime when the limiter grants a
        slot; otherwise closes it at once and opens the file per read. */
    constructor (fileName: string, fd: nat, limiter: Limiter)
      requires limiter.Valid()
      modifies limiter
      ensures limiter.Valid()
      ensures hasPermanentFd <==> old(limiter.acquiresAllowed) > 0
      ensures limiter.acquiresAllowed ==
        if hasPermanentFd then old(limiter.acquiresAllowed) - 1 else old(limiter.acquiresAllowed)
      ensures this.fd == if hasPermanentFd then fd else -1
      ensures closed == if hasPermanentFd then [] else [fd]
      ensures this.limiter == limiter && this.fileName == fileName
    {
      var acquired := limiter.Acquire();
      hasPermanentFd := acquired;
      this.fd := if acquired then fd else -1;
      this.limiter := limiter;
      this.fileName := fileName;
      closed := if acquired then [] else [fd];
    }

    /** The destructor closes the permanent descriptor and returns its slot. */
    method Destroy()
      requires limiter.Valid()
      requires hasPermanentFd ==> limiter.acquiresAllowed < limiter.maxAcquires
      modifies this, limiter
      ensures limiter.Valid()
      ensures closed == old(closed) + if hasPermanentFd then [fd] else []
      ensures limiter.acquiresAllowed ==
        old(limiter.acquiresAllowed) + if hasPermanentFd then 1 else 0
    {
      if hasPermanentFd {
        closed := closed + [fd];
        limiter.Release();
      }
    }

    /** Reads up to n bytes at offset, through the permanent descriptor or
        through one opened and closed for this call alone. */
    method Read(offset: nat, n: nat, openReply: SysReply, preadReply: ReadReply)
      returns (s: Status, result: seq<byte>, calls: seq<Syscall>)
      requires hasPermanentFd ==> fd >= 0
      ensures hasPermanentFd ==> calls == [Pread(fd, n, offset)]
      ensures !hasPermanentFd && openReply.Failed? ==>
        s == PosixError(fileName, openReply.errno) && result == [] && calls == [Open(fileName)]
      ensures !hasPermanentFd && openReply.Done? ==>
        calls == [Open(fileName), Pread(openReply.value, n, offset), Close(openReply.value)]
      ensures hasPermanentFd || openReply.Done? ==>
        match preadReply
        case Bytes(d) => s == OK && result == Delivered(d, n)
        case ReadFailed(e) => s == PosixError(fileName, e) && result == []
    {
      var descriptor := fd;
      calls := [];
      if !hasPermanentFd {
        calls := calls + [Open(fileName)];
        if openReply.Failed? {
          return PosixError(fileName, openReply.errno), [], calls;
        }
        descriptor := openReply.value;
      }
      assert descriptor != -1;
      s := OK;
      calls := calls + [Pread(descriptor, n, offset)];
      result := if preadReply.ReadFailed? then [] else Delivered(preadReply.data, n);
      if preadReply.ReadFailed? {
        s := PosixError(fileName, preadReply.errno);
      }
      if !hasPermanentFd {
        calls := calls + [Close(descriptor)];
      }
    }
  }

  /** A random-access file opened and destroyed again leaves the limiter as
      it found it: each granted slot is given back once. */
  method RandomAccessFileLifetime(fileName: string, fd: nat, limiter: Limiter) returns (kept: bool)
    requires limiter.Valid()
    modifies limiter
    ensures limiter.Valid()
    ensures kept <==> old(limiter.acquiresAllowed) > 0
    ensures limiter.acquiresAllowed == old(limiter.acquiresAllowed)
  {
    var file := new PosixRandomAccessFile(fileName, fd, limiter);
    kept := file.hasPermanentFd;
    file.Destroy();
    assert file.closed == [fd];
  }

  // ---------------------------------------------------------------------
  // Memory-mapped random-access files

  datatype ReadOutcome = ReadOutcome(status: Status, data: seq<byte>)

  const Uint64Modulus := 0x1_0000_0000_0000_0000

  class PosixMmapReadableFile {
    /** The mapped region, mmap_base_[0..length_). */
    const mapped: seq<byte>
    const limiter: Limiter
    const filename: string

    constructor (filename: string, mapped: seq<byte>, limiter: Limiter)
      ensures this.filename == filename && this.mapped == mapped && this.limiter == limiter
    {
      this.filename := filename;
      this.mapped := mapped;
      this.limiter := limiter;
    }

    /** The destructor unmaps the region and returns its limiter slot. */
    method Destroy() returns (calls: seq<Syscall>)
      requires limiter.Valid() && limiter.acquiresAllowed < limiter.maxAcquires
      modifies limiter
      ensures limiter.Valid()
      ensures limiter.acquiresAllowed == old(limiter.acquiresAllowed) + 1
      ensures calls == [Munmap(|mapped|)]
    {
      calls := [Munmap(|mapped|)];
      limiter.Release();
    }

    /** Bytes [offset, offset + n) of the mapping when they all lie inside it,
        otherwise no bytes and the EINVAL error. The bound is checked without
        wrap-around (see ReadPassesBoundsCheckAsWritten). */
    function Read(offset: nat, n: nat): (r: ReadOutcome)
      ensures r.status.IsOk() <==> offset + n <= |mapped|
      ensures r.status.IsOk() ==> r.data == mapped[offset..offset + n] && |r.data| == n
      ensures !r.status.IsOk() ==> r.data == [] && r.status == PosixError(filename, EINVAL)
    {
      if offset > |mapped| || n > |mapped| - offset then
        ReadOutcome(PosixError(filename, EINVAL), [])
      else
        ReadOutcome(OK, mapped[offset..offset + n])
    }
  }

  /** The source's bounds test, `offset + n > length_`, on 64-bit unsigned
      operands: true when the read is refused. It is the intended test
      whenever the sum does not wrap. */
  predicate RefusedAsWritten(offset: nat, n: nat, length: nat)
    requires offset < Uint64Modulus && n < Uint64Modulus
    ensures offset + n < Uint64Modulus ==> (RefusedAsWritten(offset, n, length) <==> offset + n > length)
  {
    (offset + n) % Uint64Modulus > length
  }

  /** The sum wraps to a small value, so the test lets through a read whose
      offset is far beyond the end of the mapping; the address
      mmap_base_ + offset itself wraps to one byte below the mapping. */
  lemma ReadPassesBoundsCheckAsWritten()
    ensures !RefusedAsWritten(Uint64Modulus - 1, 1, 0)
    ensures (Uint64Modulus - 1) + 1 > 0
  {
  }

  // ---------------------------------------------------------------------
  // Writable files

  /** The kernel's answer to the k-th write of size bytes: scripted, then
      complete writes. */
  function WriteReplyAt(replies: seq<SysReply>, k: nat, size: nat): SysReply
  {
    if k < |replies| then replies[k] else Done(size)
  }

  /** How many bytes a write of size bytes answered by r hands to the kernel. */
  function Taken(r: SysReply, size: nat): (t: nat)
    ensures t <= size
  {
    if r.Done? then (if r.value < size then r.value else size) else 0
  }

  predicate HardFailure(r: SysReply)
  {
    r.Failed? && r.errno != EINTR
  }

  /** What is left of rest after a write of it answered by r. */
  function Next(rest: seq<byte>, r: SysReply): seq<byte>
  {
    rest[Taken(r, |rest|)..]
  }

  /** The kernel's answer to call i of a trace of write calls. */
  function ReplyTo(replies: seq<SysReply>, i: nat, call: Syscall): SysReply
    requires call.Write?
  {
    WriteReplyAt(replies, i, |call.data|)
  }

  /** Call i of a write trace was not a hard failure, and call i + 1 writes
      what it left. */
  ghost predicate Continues(replies: seq<SysReply>, calls: seq<Syscall>, i: nat)
    requires i + 1 < |calls| && calls[i].Write? && calls[i + 1].Write?
  {
    var r := ReplyTo(replies, i, calls[i]);
    !HardFailure(r) && calls[i + 1].data == Next(calls[i].data, r)
  }

  /** The outcome of the write loop over data: the first call writes all of
      data, each further call writes what the previous one left, interrupted
      calls are issued again unchanged, and the loop stops at the first hard
      failure and reports it, or reports OK once nothing remains. */
  ghost predicate WriteLoop(fd: int, filename: string, data: seq<byte>, replies: seq<SysReply>,
                            s: Status, calls: seq<Syscall>)
  {
    && (forall i :: 0 <= i < |calls| ==> calls[i].Write? && calls[i].fd == fd && calls[i].data != [])
    && (|calls| == 0 ==> data == [] && s.IsOk())
    && (|calls| > 0 ==> calls[0].data == data)
    && (forall i :: 0 <= i < |calls| - 1 ==> Continues(replies, calls, i))
    && (|calls| > 0 && s.IsOk() ==>
          var r := ReplyTo(replies, |calls| - 1, calls[|calls| - 1]);
          !HardFailure(r) && Next(calls[|calls| - 1].data, r) == [])
    && (!s.IsOk() ==>
          && |calls| > 0
          && var r := ReplyTo(replies, |calls| - 1, calls[|calls| - 1]);
             HardFailure(r) && s == PosixError(filename, r.errno))
  }

  /** The bytes the kernel took during the first i calls of a write trace. */
  ghost function Accepted(replies: seq<SysReply>, calls: seq<Syscall>, i: nat): seq<byte>
    requires i <= |calls| && forall j :: 0 <= j < |calls| ==> calls[j].Write?
  {
    if i == 0 then []
    else
      var d := calls[i - 1].data;
      Accepted(replies, calls, i - 1) + d[..Taken(ReplyTo(replies, i - 1, calls[i - 1]), |d|)]
  }

  /** Before each call of the write loop, the bytes the kernel has taken so
      far followed by the bytes of the call are exactly data. */
  lemma {:induction false} AcceptedThenCall(data: seq<byte>, replies: seq<SysReply>, calls: seq<Syscall>, i: nat)
    requires forall j :: 0 <= j < |calls| ==> calls[j].Write?
    requires i < |calls| && calls[0].data == data
    requires forall j :: 0 <= j < |calls| - 1 ==> Continues(replies, calls, j)
    ensures Accepted(replies, calls, i) + calls[i].data == data
  {
    if i > 0 {
      AcceptedThenCall(data, replies, calls, i - 1);
      var d := calls[i - 1].data;
      var t := Taken(ReplyTo(replies, i - 1, calls[i - 1]), |d|);
      assert Continues(replies, calls, i - 1);
      assert calls[i].data == d[t..];
      assert Accepted(replies, calls, i) == Accepted(replies, calls, i - 1) + d[..t];
      assert d == d[..t] + d[t..];
    }
  }

  /** The write loop reports OK only once the kernel has taken all of data,
      in order. */
  lemma WrittenInOrder(fd: int, filename: string, data: seq<byte>,
                       replies: seq<SysReply>, s: Status, calls: seq<Syscall>)
    requires WriteLoop(fd, filename, data, replies, s, calls)
    requires s.IsOk()
    ensures Accepted(replies, calls, |calls|) == data
  {
    if |calls| > 0 {
      AcceptedThenCall(data, replies, calls, |calls| - 1);
      var d := calls[|calls| - 1].data;
      var t := Taken(ReplyTo(replies, |calls| - 1, calls[|calls| - 1]), |d|);
      assert d == d[..t] + d[t..];
    }
  }

  /** An interrupted write is issued again, and the bytes still get written. */
  lemma InterruptedWriteIsReissued(fd: int, filename: string, data: seq<byte>, s: Status, calls: seq<Syscall>)
    requires data != []
    requires WriteLoop(fd, filename, data, [Failed(EINTR)], s, calls)
    ensures s.IsOk() && calls == [Write(fd, data), Write(fd, data)]
  {
    var replies := [Failed(EINTR)];
    assert calls[0].data == data && ReplyTo(replies, 0, calls[0]) == Failed(EINTR);
    assert Next(data, Failed(EINTR)) == data;
    assert |calls| > 1;
    assert Continues(replies, calls, 0);
    assert calls[1].data == data && ReplyTo(replies, 1, calls[1]) == Done(|data|);
    assert Next(data, Done(|data|)) == [];
    assert |calls| > 2 ==> Continues(replies, calls, 1);
    assert |calls| == 2;
    assert !HardFailure(ReplyTo(replies, |calls| - 1, calls[|calls| - 1]));
    assert calls[0] == Write(fd, data) && calls[1] == Write(fd, data);
    assert calls == [calls[0], calls[1]];
  }

  class PosixWritableFile {
    const buf: array<byte>
    var pos: nat
    const fd: int
    const isManifest: bool
    const filename: string
    const dirname: string

    ghost predicate Valid()
      reads this
    {
      buf.Length == WritableFileBufferSize && pos <= buf.Length
    }

    constructor (filename: string, fd: int, isManifest: bool, dirname: string)
      ensures Valid() && fresh(buf) && pos == 0
      ensures this.filename == filename && this.fd == fd
      ensures this.isManifest == isManifest && this.dirname == dirname
    {
      buf := new byte[WritableFileBufferSize];
      pos := 0;
      this.fd, this.filename := fd, filename;
      this.isManifest, this.dirname := isManifest, dirname;
    }

    /** Writes the buffered bytes and empties the buffer, whatever the outcome. */
    method FlushBuffer(replies: seq<SysReply>) returns (s: Status, calls: seq<Syscall>)
      requires Valid()
      modifies this
      ensures Valid() && pos == 0
      ensures WriteLoop(fd, filename, old(buf[..pos]), replies, s, calls)
    {
      s, calls := WriteUnbuffered(buf[..pos], replies);
      pos := 0;
    }

    /** Hands data to write until all of it is taken, advancing past each
        partial write and issuing the call again when it is interrupted. */
    method WriteUnbuffered(data: seq<byte>, replies: seq<SysReply>) returns (s: Status, calls: seq<Syscall>)
      ensures WriteLoop(fd, filename, data, replies, s, calls)
    {
      var rest := data;
      var k := 0;
      calls := [];
      while |rest| > 0
        invariant k == |calls|
        invariant k == 0 ==> rest == data
        invariant forall i :: 0 <= i < k ==> calls[i].Write? && calls[i].fd == fd && calls[i].data != []
        invariant k > 0 ==> calls[0].data == data
        invariant forall i :: 0 <= i < k - 1 ==> Continues(replies, calls, i)
        invariant k > 0 ==>
          !HardFailure(ReplyTo(replies, k - 1, calls[k - 1])) &&
          rest == Next(calls[k - 1].data, ReplyTo(replies, k - 1, calls[k - 1]))
        decreases if k <= |replies| then |replies| - k else 0, |rest|
      {
        ghost var before := calls;
        calls := calls + [Write(fd, rest)];
        forall i | 0 <= i < k - 1
          ensures Continues(replies, calls, i)
        {
          assert calls[i] == before[i] && calls[i + 1] == before[i + 1];
          assert Continues(replies, before, i);
        }
        assert k > 0 ==> Continues(replies, calls, k - 1);
        var reply := WriteReplyAt(replies, k, |rest|);
        if reply.Failed? {
          if reply.errno == EINTR {
            k := k + 1;
            continue;
          }
          return PosixError(filename, reply.errno), calls;
        }
        rest := rest[Taken(reply, |rest|)..];
        k := k + 1;
      }
      s := OK;
    }
  }

  /** The source's write loop as written, run for at most fuel steps (None
      when the fuel runs out). k counts the write calls issued so far. An
      interrupted write is never reported: the loop only ever fails with the
      errno of a hard failure. */
  function WriteUnbufferedAsWritten(fuel: nat, filename: string, data: seq<byte>,
                                    replies: seq<SysReply>, k: nat): (r: Option<Status>)
    ensures r.Some? && !r.value.IsOk() ==> r.value.msg == filename && r.value.detail != ErrnoText(EINTR)
    decreases fuel
  {
    if |data| == 0 then Some(OK)
    else if fuel == 0 then None
    else
      var r := WriteReplyAt(replies, k, |data|);
      if r.Failed? then RetryAsWritten(fuel - 1, filename, r.errno)
      else WriteUnbufferedAsWritten(fuel - 1, filename, data[Taken(r, |data|)..], replies, k + 1)
  }

  /** The inner `while (write_result < 0)` loop: neither write_result nor
      errno changes inside it, so EINTR makes it spin, and any other errno
      is reported at once. */
  function RetryAsWritten(fuel: nat, filename: string, errno: int): (r: Option<Status>)
    ensures r.Some? <==> fuel > 0 && errno != EINTR
    ensures r.Some? ==> r.value == PosixError(filename, errno)
    decreases fuel
  {
    if fuel == 0 then None
    else if errno == EINTR then RetryAsWritten(fuel - 1, filename, errno)
    else Some(PosixError(filename, errno))
  }

  lemma {:induction false} RetrySpinsAsWritten(fuel: nat, filename: string)
    ensures RetryAsWritten(fuel, filename, EINTR) == None
  {
    if fuel > 0 {
      RetrySpinsAsWritten(fuel - 1, filename);
    }
  }

  /** As written, a write interrupted once never finishes, whatever the
      number of steps allowed. */
  lemma InterruptedWriteHangsAsWritten(fuel: nat, filename: string, data: seq<byte>, replies: seq<SysReply>)
    requires data != [] && |replies| > 0 && replies[0] == Failed(EINTR)
    ensures WriteUnbufferedAsWritten(fuel, filename, data, replies, 0) == None
  {
    if fuel > 0 {
      RetrySpinsAsWritten(fuel - 1, filename);
    }
  }
}
