/** The Linux I2C character device as the program uses it: a file descriptor
    already bound to one slave address, on which `unix.Write` sends bytes and
    `unix.Read` fills a buffer. The device's answers are scripted in advance,
    one per operation in order, and every operation issued is appended to a
    log, so that what a caller did to the bus can be stated exactly. */
module I2cBus {
  import opened Bytes

  datatype Option<T> = None | Some(value: T)

  /** An error value returned by a system call (Go's `error`, non-nil). */
  datatype Errno = Errno(code: nat)

  /** The error a write or read gets when the script has no answer left:
      ENXIO, "no such device or address". */
  const NoAnswer := Errno(6)

  /** An operation issued on the bus. */
  datatype Op = Write(data: seq<Byte>) | Read(length: nat)

  /** The device's answer to one write: the number of bytes taken (possibly
      fewer than sent), or an error. */
  datatype WriteAnswer = Accepted(count: nat) | WriteFailed(werr: Errno)

  /** The device's answer to one read: the bytes it delivered (possibly fewer
      than asked for), or an error. */
  datatype ReadAnswer = Delivered(data: seq<Byte>) | ReadFailed(rerr: Errno)

  /** What a system call returns: a byte count (-1 on failure) and an error. */
  datatype Transfer = Transfer(count: int, err: Option<Errno>)

  /** The result of the next write, given the answers still scripted. */
  function NextWrite(answers: seq<WriteAnswer>): (t: Transfer)
    ensures t.err.None? <==> answers != [] && answers[0].Accepted?
    ensures t.err.None? ==> t.count == answers[0].count
    ensures t.err.Some? ==> t.count == -1
  {
    if answers == [] then Transfer(-1, Some(NoAnswer))
    else match answers[0]
      case Accepted(c) => Transfer(c, None)
      case WriteFailed(e) => Transfer(-1, Some(e))
  }

  /** The result of the next read into a buffer of `length` bytes. */
  function NextRead(answers: seq<ReadAnswer>, length: nat): (t: Transfer)
    ensures t.err.None? <==> answers != [] && answers[0].Delivered?
    ensures t.err.None? ==> 0 <= t.count <= length && t.count <= |answers[0].data|
    ensures t.err.Some? ==> t.count == -1
  {
    if answers == [] then Transfer(-1, Some(NoAnswer))
    else match answers[0]
      case Delivered(d) => Transfer(if |d| < length then |d| else length, None)
      case ReadFailed(e) => Transfer(-1, Some(e))
  }

  /** A buffer after a read that delivered `data`: as many leading bytes as
      were delivered are replaced, the rest keep their earlier contents. */
  function Filled(buf: seq<Byte>, data: seq<Byte>): (r: seq<Byte>)
    ensures |r| == |buf|
    ensures forall i :: 0 <= i < |r| ==> r[i] == (if i < |data| then data[i] else buf[i])
  {
    if |data| < |buf| then data + buf[|data|..] else data[..|buf|]
  }

  /** The buffer after the next read: filled on success, untouched on error. */
  function AfterRead(buf: seq<Byte>, answers: seq<ReadAnswer>): (r: seq<Byte>)
    ensures |r| == |buf|
    ensures NextRead(answers, |buf|).err.Some? ==> r == buf
  {
    if answers != [] && answers[0].Delivered? then Filled(buf, answers[0].data) else buf
  }

  /** The answers left after one is consumed. */
  function Rest<T>(answers: seq<T>): (r: seq<T>)
    ensures answers != [] ==> answers == [answers[0]] + r
    ensures answers == [] ==> r == []
  {
    if answers == [] then [] else answers[1..]
  }

  class Bus {
    /** Every operation issued so far, oldest first. */
    var log: seq<Op>
    /** The answers the device will give to the coming writes, in order. */
    var writeAnswers: seq<WriteAnswer>
    /** The answers the device will give to the coming reads, in order. */
    var readAnswers: seq<ReadAnswer>

    constructor (writeAnswers: seq<WriteAnswer>, readAnswers: seq<ReadAnswer>)
      ensures log == []
      ensures this.writeAnswers == writeAnswers && this.readAnswers == readAnswers
    {
      log := [];
      this.writeAnswers := writeAnswers;
      this.readAnswers := readAnswers;
    }

    /** `unix.Write(fd, data)`. */
    method Write(data: seq<Byte>) returns (t: Transfer)
      modifies this
      ensures log == old(log) + [Op.Write(data)]
      ensures t == NextWrite(old(writeAnswers))
      ensures writeAnswers == Rest(old(writeAnswers))
      ensures readAnswers == old(readAnswers)
    {
      t := NextWrite(writeAnswers);
      log := log + [Op.Write(data)];
      writeAnswers := Rest(writeAnswers);
    }

    /** `unix.Read(fd, buf)`: fills `buf` in place with the bytes delivered. */
    method Read(buf: array<Byte>) returns (t: Transfer)
      modifies this, buf
      ensures log == old(log) + [Op.Read(buf.Length)]
      ensures t == NextRead(old(readAnswers), buf.Length)
      ensures buf[..] == AfterRead(old(buf[..]), old(readAnswers))
      ensures readAnswers == Rest(old(readAnswers))
      ensures writeAnswers == old(writeAnswers)
    {
      t := NextRead(readAnswers, buf.Length);
      if t.err.None? {
        var data := readAnswers[0].data;
        var i := 0;
        while i < t.count
          modifies buf
          invariant 0 <= i <= t.count
          invariant forall j :: 0 <= j < i ==> buf[j] == data[j]
          invariant forall j :: i <= j < buf.Length ==> buf[j] == old(buf[j])
        {
          buf[i] := data[i];
          i := i + 1;
        }
        ghost var filled := Filled(old(buf[..]), data);
        assert forall j :: 0 <= j < buf.Length ==> buf[..][j] == filled[j];
      }
      log := log + [Op.Read(buf.Length)];
      readAnswers := Rest(readAnswers);
    }
  }
}
