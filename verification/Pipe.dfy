/**
 One pipe with one reading and one writing process (kernel/exec/pipe.c).

 pipe_read and pipe_write run undisturbed up to a task_block; each such stretch is one method
 here, so a call order of these methods is an interleaving.  Closing an end, and a wake-up
 that comes from elsewhere (signal_kill makes a blocked process runnable), may happen between
 any two stretches.  `Valid` holds after every one of them.
 */
module Pipe {

  import opened PipeQueue

  datatype ReadResult = Bytes(bytes: seq<Byte>) | ReadBlocks
  datatype WriteResult = Written(count: nat) | BrokenPipe | WriteBlocks

  /** `n` bytes of the circular buffer from position `start`. */
  function Circular(buf: seq<Byte>, start: nat, n: nat): (r: seq<Byte>)
    requires |buf| == PIPE_BUF_SIZE
    ensures |r| == n
  {
    seq(n, (k: nat) => buf[(start + k) % PIPE_BUF_SIZE])
  }

  lemma CircularPut(buf: seq<Byte>, start: nat, n: nat, b: Byte)
    requires |buf| == PIPE_BUF_SIZE && n < PIPE_BUF_SIZE
    ensures Circular(buf[(start + n) % PIPE_BUF_SIZE := b], start, n + 1) == Circular(buf, start, n) + [b]
  {
    var r, t := Circular(buf[(start + n) % PIPE_BUF_SIZE := b], start, n + 1), Circular(buf, start, n) + [b];
    forall k | 0 <= k < n + 1 ensures r[k] == t[k] {
      if k < n { assert (start + n) - (start + k) == n - k; }
    }
  }

  lemma CircularTake(buf: seq<Byte>, start: nat, n: nat)
    requires |buf| == PIPE_BUF_SIZE && n > 0 && start < PIPE_BUF_SIZE
    ensures Circular(buf, start, n) == [buf[start]] + Circular(buf, (start + 1) % PIPE_BUF_SIZE, n - 1)
  {
    var r, t := Circular(buf, start, n), Circular(buf, (start + 1) % PIPE_BUF_SIZE, n - 1);
    forall k | 0 <= k < n - 1 ensures t[k] == r[k + 1] {
      assert ((start + 1) % PIPE_BUF_SIZE + k) % PIPE_BUF_SIZE == (start + (k + 1)) % PIPE_BUF_SIZE;
    }
    assert r == [buf[start]] + t;
  }

  class Ring {
    const buf: array<Byte>
    var readPos: nat
    var writePos: nat
    var available: nat
    var readOpen: bool
    var writeOpen: bool
    var readWaiter: nat     // pid, 0 = none
    var writeWaiter: nat
    const readerPid: nat
    const writerPid: nat
    var reader: Reader
    var writer: Writer
    ghost var accepted: seq<Byte>    // every byte pipe_write has stored
    ghost var delivered: seq<Byte>   // every byte pipe_read has handed out

    ghost predicate RingValid()
      reads this, buf
    {
      && buf.Length == PIPE_BUF_SIZE && readPos < PIPE_BUF_SIZE && available <= PIPE_BUF_SIZE
      && writePos == (readPos + available) % PIPE_BUF_SIZE
      // Conservation: what went out, then what is inside, is what came in.
      && accepted == delivered + Contents()
      && readerPid > 0 && writerPid > 0
    }

    /** The bytes in the ring, oldest first. */
    ghost function Contents(): seq<Byte>
      requires buf.Length == PIPE_BUF_SIZE
      reads this, buf
    {
      Circular(buf[..], readPos, available)
    }

    /** A blocked process is registered, and blocked for a reason that still holds. */
    ghost predicate WaitersValid()
      reads this
    {
      && (reader.ReaderBlocked? ==> available == 0 && readWaiter > 0)
      && (writer.WriterBlocked? ==> available == PIPE_BUF_SIZE && writeWaiter > 0)
      && (writer.WriterBlocked? ==> writer.written < |writer.data|)
      && (writer.WriterReady? ==> writer.written < |writer.data|)
    }

    ghost predicate Valid()
      reads this, buf
    {
      && RingValid() && WaitersValid()
      // The two are never blocked together.
      && !(reader.ReaderBlocked? && writer.WriterBlocked?)
    }

    constructor (readerPid: nat, writerPid: nat)
      requires readerPid > 0 && writerPid > 0
      ensures Valid() && accepted == [] && readOpen && writeOpen && reader.ReaderIdle? && writer.WriterIdle?
    {
      buf := new Byte[PIPE_BUF_SIZE](_ => 0);
      readPos, writePos, available := 0, 0, 0;
      readOpen, writeOpen, readWaiter, writeWaiter := true, true, 0, 0;
      this.readerPid, this.writerPid, reader, writer := readerPid, writerPid, ReaderIdle, WriterIdle;
      accepted, delivered := [], [];
    }

    method PutByte(b: Byte)
      requires RingValid() && available < PIPE_BUF_SIZE
      modifies this`writePos, this`available, this`accepted, buf
      ensures RingValid() && available == old(available) + 1
      ensures Contents() == old(Contents()) + [b] && accepted == old(accepted) + [b]
    {
      CircularPut(buf[..], readPos, available, b);
      buf[writePos] := b;
      writePos := (writePos + 1) % PIPE_BUF_SIZE;
      available := available + 1;
      accepted := accepted + [b];
      assert Contents() == old(Contents()) + [b];
    }

    method TakeByte() returns (b: Byte)
      requires RingValid() && available > 0
      modifies this`readPos, this`available, this`delivered
      ensures RingValid() && available == old(available) - 1
      ensures [b] + Contents() == old(Contents()) && delivered == old(delivered) + [b]
    {
      CircularTake(buf[..], readPos, available);
      b := buf[readPos];
      readPos := (readPos + 1) % PIPE_BUF_SIZE;
      available := available - 1;
      delivered := delivered + [b];
      assert [b] + Contents() == old(Contents());
    }

    /** The copy loop of pipe_read. */
    method TakeBytes(count: nat) returns (bytes: seq<Byte>)
      requires RingValid()
      modifies this`readPos, this`available, this`delivered
      ensures RingValid() && available == old(available) - |bytes|
      ensures bytes == old(Contents())[..Min(count, old(available))] && delivered == old(delivered) + bytes
      ensures accepted == old(accepted) && Contents() == old(Contents())[|bytes|..]
    {
      var n := Min(count, available);
      bytes := [];
      ghost var start := Contents();
      assert start == bytes + Contents() && delivered == old(delivered) + bytes;
      for i := 0 to n
        invariant RingValid() && available == old(available) - i && |bytes| == i && accepted == old(accepted)
        invariant start == bytes + Contents() && delivered == old(delivered) + bytes
      {
        var b := TakeByte();
        Associates(bytes, [b], Contents());
        Associates(old(delivered), bytes, [b]);
        bytes := bytes + [b];
      }
      assert bytes == (bytes + Contents())[..n] && Contents() == (bytes + Contents())[n..];
    }

    /** pipe_read from entry, or from the return of its task_block, up to its return or block. */
    method ReadStretch(count: nat) returns (r: ReadResult)
      requires RingValid() && WaitersValid() && !reader.ReaderBlocked?
      modifies this`readPos, this`available, this`delivered, this`reader, this`writer, this`readWaiter, this`writeWaiter
      ensures Valid() && accepted == old(accepted)
      ensures r.ReadBlocks? <==> old(available) == 0 && writeOpen
      ensures r.ReadBlocks? ==> reader == ReaderBlocked(count) && delivered == old(delivered)
      ensures r.Bytes? ==> reader == ReaderIdle && delivered == old(delivered) + r.bytes
      ensures Contents() == if r.Bytes? then old(Contents())[|r.bytes|..] else old(Contents())
      ensures r.Bytes? ==> r.bytes == old(Contents())[..Min(count, old(available))]
      // A writer waiting for room is woken.
      ensures writer == if r.Bytes? && old(available) > 0 then WokenWriter(old(writer)) else old(writer)
    {
      if available == 0 {
        if !writeOpen {
          reader := ReaderIdle;
          return Bytes([]);
        }
        readWaiter := readerPid;
        reader := ReaderBlocked(count);
        return ReadBlocks;
      }
      var bytes := TakeBytes(count);
      reader := ReaderIdle;
      if writeWaiter > 0 {
        WakeWriter();
        writeWaiter := 0;
      }
      return Bytes(bytes);
    }

    /** task_unblock_pid on the other process. */
    method WakeWriter()
      modifies this`writer
      ensures writer == WokenWriter(old(writer))
    {
      if writer.WriterBlocked? { writer := WriterReady(writer.data, writer.written); }
    }

    method WakeReader()
      modifies this`reader
      ensures reader == WokenReader(old(reader))
    {
      if reader.ReaderBlocked? { reader := ReaderReady(reader.wanted); }
    }

    /** One byte stored, and a registered reader woken. */
    method Store(b: Byte)
      requires RingValid() && WaitersValid() && writer.WriterIdle? && available < PIPE_BUF_SIZE
      modifies this`writePos, this`available, this`accepted, this`reader, this`readWaiter, buf
      ensures RingValid() && WaitersValid() && delivered == old(delivered)
      ensures accepted == old(accepted) + [b] && reader == WokenReader(old(reader))
    {
      PutByte(b);
      if readWaiter > 0 {
        WakeReader();
        readWaiter := 0;
      }
    }

    /** The position in its data of a write that was at `written` when `was` had been stored. */
    ghost function Reached(was: seq<Byte>, written: nat): int
      reads this
    {
      written + |accepted| - |was|
    }

    /** The store loop of pipe_write from byte `written` on, up to its return or block. */
    method WriteStretch(data: seq<Byte>, written: nat) returns (r: WriteResult)
      requires RingValid() && WaitersValid() && !writer.WriterBlocked? && written <= |data|
      modifies this`writePos, this`available, this`accepted, this`reader, this`writer, this`readWaiter,
          this`writeWaiter, buf
      ensures Valid() && delivered == old(delivered)
      ensures var n := Reached(old(accepted), written);
              && written <= n <= |data| && accepted == old(accepted) + data[written..n]
              && (r.Written? ==> n == |data| && r.count == n)
              && writer == if r.WriteBlocks? then WriterBlocked(data, n) else WriterIdle
      ensures !r.Written? ==>
                && available == PIPE_BUF_SIZE && Reached(old(accepted), written) < |data|
                && (r.WriteBlocks? <==> readOpen)
      // A reader waiting for data is woken by the first byte.
      ensures reader == if accepted != old(accepted) then WokenReader(old(reader)) else old(reader)
    {
      writer := WriterIdle;
      var n := written;
      while n < |data|
        invariant written <= n <= |data| && RingValid() && WaitersValid() && writer == WriterIdle
        invariant delivered == old(delivered) && accepted == old(accepted) + data[written..n]
        invariant |accepted| == |old(accepted)| + n - written
        invariant reader == if n > written then WokenReader(old(reader)) else old(reader)
      {
        if available >= PIPE_BUF_SIZE {
          if !readOpen { return BrokenPipe; }
          writeWaiter := writerPid;
          writer := WriterBlocked(data, n);
          return WriteBlocks;
        }
        Store(data[n]);
        assert data[written..n + 1] == data[written..n] + [data[n]];
        Associates(old(accepted), data[written..n], [data[n]]);
        n := n + 1;
      }
      return Written(n);
    }

    // ----- The steps of an interleaving ---------------------------------------------------

    method StartRead(count: nat) returns (r: ReadResult)
      requires Valid() && reader.ReaderIdle? && readOpen
      modifies this`readPos, this`available, this`delivered, this`reader, this`writer, this`readWaiter, this`writeWaiter
      ensures Valid() && accepted == old(accepted)
      ensures r.ReadBlocks? <==> old(available) == 0 && writeOpen
      ensures r.ReadBlocks? ==> reader == ReaderBlocked(count) && delivered == old(delivered)
      ensures r.Bytes? ==> reader == ReaderIdle && r.bytes == old(Contents())[..Min(count, old(available))]
      ensures r.Bytes? ==> delivered == old(delivered) + r.bytes
      ensures Contents() == if r.Bytes? then old(Contents())[|r.bytes|..] else old(Contents())
      ensures writer == if r.Bytes? && old(available) > 0 then WokenWriter(old(writer)) else old(writer)
    {
      r := ReadStretch(count);
    }

    method ResumeRead() returns (r: ReadResult)
      requires Valid() && reader.ReaderReady?
      modifies this`readPos, this`available, this`delivered, this`reader, this`writer, this`readWaiter, this`writeWaiter
      ensures Valid() && accepted == old(accepted)
      ensures r.ReadBlocks? <==> old(available) == 0 && writeOpen
      ensures r.ReadBlocks? ==> reader == ReaderBlocked(old(reader).wanted) && delivered == old(delivered)
      ensures r.Bytes? ==>
                reader == ReaderIdle && r.bytes == old(Contents())[..Min(old(reader).wanted, old(available))]
      ensures r.Bytes? ==> delivered == old(delivered) + r.bytes
      ensures Contents() == if r.Bytes? then old(Contents())[|r.bytes|..] else old(Contents())
      ensures writer == if r.Bytes? && old(available) > 0 then WokenWriter(old(writer)) else old(writer)
    {
      readWaiter := 0;
      r := ReadStretch(reader.wanted);
    }

    method StartWrite(data: seq<Byte>) returns (r: WriteResult)
      requires Valid() && writer.WriterIdle? && writeOpen
      modifies this`writePos, this`available, this`accepted, this`reader, this`writer, this`readWaiter,
          this`writeWaiter, buf
      ensures Valid() && delivered == old(delivered)
      ensures var n := Reached(old(accepted), 0);
              && 0 <= n <= |data| && accepted == old(accepted) + data[..n]
              && (r.Written? ==> n == |data| && r.count == n)
              && writer == if r.WriteBlocks? then WriterBlocked(data, n) else WriterIdle
      ensures r.WriteBlocks? ==> available == PIPE_BUF_SIZE && Reached(old(accepted), 0) < |data|
      ensures (r.BrokenPipe? <==> !readOpen) && (r.BrokenPipe? ==> accepted == old(accepted))
      ensures reader == if accepted != old(accepted) then WokenReader(old(reader)) else old(reader)
    {
      if !readOpen { return BrokenPipe; }
      r := WriteStretch(data, 0);
    }

    method ResumeWrite() returns (r: WriteResult)
      requires Valid() && writer.WriterReady?
      modifies this`writePos, this`available, this`accepted, this`reader, this`writer, this`readWaiter,
          this`writeWaiter, buf
      ensures Valid() && delivered == old(delivered)
      ensures var data, written := old(writer).data, old(writer).written;
              var n := Reached(old(accepted), written);
              && written <= n <= |data| && accepted == old(accepted) + data[written..n]
              && (r.Written? ==> n == |data| && r.count == n)
              && writer == if r.WriteBlocks? then WriterBlocked(data, n) else WriterIdle
      ensures !r.Written? ==>
                && available == PIPE_BUF_SIZE && Reached(old(accepted), old(writer).written) < |old(writer).data|
                && (r.WriteBlocks? <==> readOpen)
      ensures reader == if accepted != old(accepted) then WokenReader(old(reader)) else old(reader)
    {
      writeWaiter := 0;
      r := WriteStretch(writer.data, writer.written);
    }

    method CloseRead()
      requires Valid() && reader.ReaderIdle?
      modifies this`readOpen
      ensures Valid() && !readOpen
    {
      readOpen := false;
    }

    method CloseWrite()
      requires Valid() && writer.WriterIdle?
      modifies this`writeOpen
      ensures Valid() && !writeOpen
    {
      writeOpen := false;
    }

    /** A blocked process is made runnable from outside the pipe; its registration stays. */
    method SpuriousWake(wakeReader: bool)
      requires Valid()
      modifies this`reader, this`writer
      ensures Valid()
      ensures reader == if wakeReader then WokenReader(old(reader)) else old(reader)
      ensures writer == if wakeReader then old(writer) else WokenWriter(old(writer))
    {
      if wakeReader { WakeReader(); } else { WakeWriter(); }
    }

    // ----- Whole runs -----------------------------------------------------------------------

    /** The ring as a queue, with a log of the calls that came back. */
    ghost function View(log: seq<Event>): (s: State)
      requires Valid()
      ensures Sound(s)
      reads this, buf
    {
      State(Contents(), reader, writer, readOpen, writeOpen, log)
    }

    /** A read that starts or goes on. */
    method ReadStep(step: Step, ghost log: seq<Event>) returns (ghost log': seq<Event>)
      requires Valid()
      requires if step.StartsRead? then reader.ReaderIdle? && readOpen else step.ResumesRead? && reader.ReaderReady?
      modifies this, buf
      ensures Valid() && View(log') == After(old(View(log)), step)
    {
      var r;
      if step.StartsRead? { r := StartRead(step.count); } else { r := ResumeRead(); }
      log' := if r.Bytes? then log + [HasRead(r.bytes)] else log;
    }

    /** The bytes that a stretch of a write stored are those that fit. */
    lemma StoredFits(was: seq<Byte>, now: seq<Byte>, handed: seq<Byte>, before: seq<Byte>, chunk: seq<Byte>)
      requires buf.Length == PIPE_BUF_SIZE
      requires was == handed + before && now == was + chunk && now == handed + Contents()
      ensures Contents() == before + chunk
    {
      Associates(handed, before, chunk);
      SameTail(handed, Contents(), before + chunk);
    }

    method StartWriteStep(data: seq<Byte>, ghost log: seq<Event>) returns (ghost log': seq<Event>)
      requires Valid() && writer.WriterIdle? && writeOpen
      modifies this, buf
      ensures Valid() && View(log') == After(old(View(log)), StartsWrite(data))
    {
      ghost var before := Contents();
      var r := StartWrite(data);
      ghost var n := Reached(old(accepted), 0);
      StoredFits(old(accepted), accepted, delivered, before, data[..n]);
      log' := if r.WriteBlocks? then log else log + [HasWritten(data, n, r.BrokenPipe?)];
    }

    method ResumeWriteStep(ghost log: seq<Event>) returns (ghost log': seq<Event>)
      requires Valid() && writer.WriterReady?
      modifies this, buf
      ensures Valid() && View(log') == After(old(View(log)), ResumesWrite)
    {
      ghost var before, data, written := Contents(), writer.data, writer.written;
      var r := ResumeWrite();
      ghost var n := Reached(old(accepted), written);
      StoredFits(old(accepted), accepted, delivered, before, data[written..n]);
      log' := if r.WriteBlocks? then log else log + [HasWritten(data, n, r.BrokenPipe?)];
    }

    /** One step, if the processes are ready for it. */
    method TakeStep(step: Step, ghost log: seq<Event>) returns (ghost log': seq<Event>)
      requires Valid()
      modifies this, buf
      ensures Valid() && View(log') == After(old(View(log)), step)
    {
      log' := log;
      match step {
        case StartsRead(_) => if reader.ReaderIdle? && readOpen { log' := ReadStep(step, log); }
        case ResumesRead => if reader.ReaderReady? { log' := ReadStep(step, log); }
        case StartsWrite(data) => if writer.WriterIdle? && writeOpen { log' := StartWriteStep(data, log); }
        case ResumesWrite => if writer.WriterReady? { log' := ResumeWriteStep(log); }
        case ClosesRead => if reader.ReaderIdle? { CloseRead(); }
        case ClosesWrite => if writer.WriterIdle? { CloseWrite(); }
        case Wakes(isReader) => SpuriousWake(isReader);
      }
    }

    /** Any interleaving of calls, resumptions, closes and wake-ups does to the ring what it does to the queue. */
    method RunAll(steps: seq<Step>) returns (ghost log: seq<Event>)
      requires Valid() && writer.WriterIdle?
      modifies this, buf
      ensures Valid() && View(log) == Runs(old(View([])), steps)
      ensures Conserved(old(Contents()), View(log)) && Taken(View(log)) == Started(old(View([])), steps)
    {
      log := [];
      ghost var start := View([]);
      for k := 0 to |steps|
        invariant Valid() && View(log) == Runs(start, steps[..k])
      {
        assert steps[..k + 1][..k] == steps[..k];
        log := TakeStep(steps[k], log);
      }
      assert steps[..|steps|] == steps;
      RunFromIdle(start, steps);
    }

    /** A write of any length and reads of `count` bytes, taking turns whenever one blocks, hand all of
        the data over and come to an end. */
    method Transfer(data: seq<Byte>, count: nat) returns (got: seq<Byte>)
      requires Valid() && available == 0 && count > 0
      requires reader.ReaderIdle? && writer.WriterIdle? && readOpen && writeOpen
      modifies this, buf
      ensures Valid() && available == 0 && got == data
      ensures reader.ReaderIdle? && writer.WriterIdle?
    {
      got := [];
      ghost var before, n := accepted, 0;
      var r := StartWrite(data);
      n := Reached(before, 0);
      while r.WriteBlocks?
        invariant Valid() && readOpen && writeOpen && reader.ReaderIdle? && !r.BrokenPipe?
        invariant 0 <= n <= |data| && accepted == before + data[..n] && delivered == before + got
        invariant if r.WriteBlocks? then writer == WriterBlocked(data, n) else writer == WriterIdle && n == |data|
        decreases |data| - n, r.WriteBlocks?
      {
        var chunk := StartRead(count);
        Associates(before, got, chunk.bytes);
        got := got + chunk.bytes;
        ghost var was, m := accepted, n;
        r := ResumeWrite();
        n := Reached(was, m);
        StretchJoins(before, data, m, n);
      }
      var rest := Drain(count);
      assert data[..n] == data;
      Associates(before, got, rest);
      got := got + rest;
      SameTail(before, got, data);
    }

    /** Reads of `count` bytes until the ring is empty. */
    method Drain(count: nat) returns (got: seq<Byte>)
      requires Valid() && count > 0 && reader.ReaderIdle? && writer.WriterIdle? && readOpen
      modifies this, buf
      ensures Valid() && available == 0 && reader.ReaderIdle? && writer.WriterIdle?
      ensures delivered == old(delivered) + got && accepted == old(accepted) == delivered
    {
      got := [];
      while available > 0
        invariant Valid() && readOpen && reader.ReaderIdle? && writer.WriterIdle?
        invariant accepted == old(accepted) && delivered == old(delivered) + got
        decreases available
      {
        var chunk := StartRead(count);
        Associates(old(delivered), got, chunk.bytes);
        got := got + chunk.bytes;
      }
      assert Contents() == [];
    }
  }
}
