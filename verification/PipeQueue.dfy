/**
 A pipe as a queue of at most 4096 bytes between one reading and one writing process: what each stretch
 between two blocks of pipe_read and pipe_write does to it, and what every run of such stretches keeps.
 */
module PipeQueue {

  const PIPE_BUF_SIZE := 4096

  type Byte = b: int | 0 <= b < 256

  /** Where a process is: outside the pipe, in task_block, or woken but not yet running. */
  datatype Reader = ReaderIdle | ReaderBlocked(wanted: nat) | ReaderReady(wanted: nat)
  datatype Writer =
    | WriterIdle | WriterBlocked(data: seq<Byte>, written: nat) | WriterReady(data: seq<Byte>, written: nat)

  /** One stretch of a run: a call, its resumption, a closed end or a wake-up from elsewhere. */
  datatype Step =
    | StartsRead(count: nat) | ResumesRead | StartsWrite(data: seq<Byte>) | ResumesWrite
    | ClosesRead | ClosesWrite | Wakes(isReader: bool)

  /** A call that came back: the bytes a read returned; of a write how many bytes were stored. */
  datatype Event = HasRead(bytes: seq<Byte>) | HasWritten(data: seq<Byte>, stored: nat, broken: bool)

  function Min(a: nat, b: nat): (m: nat)
    ensures m <= a && m <= b && (m == a || m == b)
  {
    if a < b then a else b
  }

  function WokenReader(r: Reader): Reader { if r.ReaderBlocked? then ReaderReady(r.wanted) else r }

  function WokenWriter(w: Writer): Writer { if w.WriterBlocked? then WriterReady(w.data, w.written) else w }

  /** The bytes that an unfinished write has stored. */
  function InFlight(w: Writer): seq<Byte> {
    if w.WriterIdle? || w.written > |w.data| then [] else w.data[..w.written]
  }

  /** All bytes returned by the reads that came back, in order. */
  function AllRead(log: seq<Event>): seq<Byte> {
    if log == [] then [] else
    var e := log[|log| - 1];
    AllRead(log[..|log| - 1]) + if e.HasRead? then e.bytes else []
  }

  /** All bytes stored by the writes that came back, in order. */
  function AllWritten(log: seq<Event>): seq<Byte> {
    if log == [] then [] else
    var e := log[|log| - 1];
    AllWritten(log[..|log| - 1]) + if e.HasWritten? && e.stored <= |e.data| then e.data[..e.stored] else []
  }

  /** All data handed to the writes that came back, in order. */
  function AllData(log: seq<Event>): seq<Byte> {
    if log == [] then [] else
    var e := log[|log| - 1];
    AllData(log[..|log| - 1]) + if e.HasWritten? then e.data else []
  }

  /** A write that succeeded has stored all of its data. */
  predicate Truthful(log: seq<Event>) {
    forall e | e in log && e.HasWritten? :: e.stored <= |e.data| && (!e.broken ==> e.stored == |e.data|)
  }

  lemma {:induction false} UnbrokenData(log: seq<Event>)
    requires Truthful(log) && forall e | e in log && e.HasWritten? :: !e.broken
    ensures AllWritten(log) == AllData(log)
  {
    if log != [] {
      assert log[|log| - 1] in log;
      UnbrokenData(log[..|log| - 1]);
    }
  }

  lemma StretchJoins(before: seq<Byte>, data: seq<Byte>, written: nat, n: nat)
    requires written <= n <= |data|
    ensures (before + data[..written]) + data[written..n] == before + data[..n]
  {
  }

  lemma Associates(a: seq<Byte>, b: seq<Byte>, c: seq<Byte>)
    ensures (a + b) + c == a + (b + c)
  {
  }

  lemma SameTail(before: seq<Byte>, a: seq<Byte>, b: seq<Byte>)
    requires before + a == before + b
    ensures a == b
  {
    assert a == (before + a)[|before|..];
    assert b == (before + b)[|before|..];
  }

  lemma Logged(log: seq<Event>, e: Event)
    ensures AllRead(log + [e]) == AllRead(log) + if e.HasRead? then e.bytes else []
    ensures e.HasRead? ==> AllWritten(log + [e]) == AllWritten(log)
    ensures e.HasWritten? && e.stored <= |e.data| ==> AllWritten(log + [e]) == AllWritten(log) + e.data[..e.stored]
  {
    assert (log + [e])[..|log|] == log;
  }

  // ----- One stretch --------------------------------------------------------------------

  /** The queue, both processes, and the calls that came back. */
  datatype State = State(contents: seq<Byte>, reader: Reader, writer: Writer, readOpen: bool, writeOpen: bool,
                         log: seq<Event>)

  /** A reader is blocked on an empty queue only, a writer on a full one, in the middle of its data. */
  predicate Sound(s: State) {
    && |s.contents| <= PIPE_BUF_SIZE
    && (s.reader.ReaderBlocked? ==> s.contents == [])
    && (s.writer.WriterBlocked? ==> |s.contents| == PIPE_BUF_SIZE)
    && (!s.writer.WriterIdle? ==> s.writer.written < |s.writer.data|)
  }

  /** pipe_read: wait for data while the other end is open, else take what there is, up to `count`. */
  function Reads(s: State, count: nat): State {
    if s.contents == [] && s.writeOpen then s.(reader := ReaderBlocked(count)) else
    var n := Min(count, |s.contents|);
    s.(contents := s.contents[n..], reader := ReaderIdle,
       writer := if s.contents == [] then s.writer else WokenWriter(s.writer),
       log := s.log + [HasRead(s.contents[..n])])
  }

  /** pipe_write from byte `written` on: store what fits, and wait for room while the other end is open. */
  function Writes(s: State, data: seq<Byte>, written: nat): State
    requires |s.contents| <= PIPE_BUF_SIZE && written <= |data|
  {
    var n := Min(|data|, written + PIPE_BUF_SIZE - |s.contents|);
    var waits := n < |data| && s.readOpen;
    s.(contents := s.contents + data[written..n],
       reader := if n > written then WokenReader(s.reader) else s.reader,
       writer := if waits then WriterBlocked(data, n) else WriterIdle,
       log := if waits then s.log else s.log + [HasWritten(data, n, n < |data|)])
  }

  /** A step that the processes are not ready for does not happen. */
  function After(s: State, step: Step): (r: State)
    requires Sound(s)
    ensures Sound(r)
  {
    match step
    case StartsRead(count) => if s.reader.ReaderIdle? && s.readOpen then Reads(s, count) else s
    case ResumesRead => if s.reader.ReaderReady? then Reads(s, s.reader.wanted) else s
    case StartsWrite(data) =>
      if !(s.writer.WriterIdle? && s.writeOpen) then s
      else if !s.readOpen then s.(log := s.log + [HasWritten(data, 0, true)])
      else Writes(s, data, 0)
    case ResumesWrite => if s.writer.WriterReady? then Writes(s, s.writer.data, s.writer.written) else s
    case ClosesRead => if s.reader.ReaderIdle? then s.(readOpen := false) else s
    case ClosesWrite => if s.writer.WriterIdle? then s.(writeOpen := false) else s
    case Wakes(isReader) =>
      if isReader then s.(reader := WokenReader(s.reader)) else s.(writer := WokenWriter(s.writer))
  }

  function Runs(s: State, steps: seq<Step>): (r: State)
    requires Sound(s)
    ensures Sound(r)
  {
    if steps == [] then s else After(Runs(s, steps[..|steps| - 1]), steps[|steps| - 1])
  }

  /** A read of an empty open queue waits; the write that follows wakes it, and it returns the first bytes. */
  lemma ReadWaits(s: State, count: nat, data: seq<Byte>)
    requires Sound(s) && s.contents == [] && s.reader.ReaderIdle? && s.writer.WriterIdle? && s.readOpen && s.writeOpen
    requires 0 < |data|
    ensures After(s, StartsRead(count)).log == s.log
    ensures var r := After(After(After(s, StartsRead(count)), StartsWrite(data)), ResumesRead);
            var n := if |data| < 4096 then |data| else 4096;
            r.reader.ReaderIdle? && HasRead(data[..if count < n then count else n]) in r.log
  {
    var n := Min(|data|, PIPE_BUF_SIZE);
    var s2 := After(After(s, StartsRead(count)), StartsWrite(data));
    assert s2.contents == data[..n] && s2.reader == ReaderReady(count);
    assert data[..n][..Min(count, n)] == data[..Min(count, n)];
    assert After(s2, ResumesRead).log[|s2.log|] == HasRead(data[..Min(count, n)]);
  }

  /** A write waits exactly when it does not fit into 4096 bytes; after a read it goes on where it was. */
  lemma WriteWaits(s: State, data: seq<Byte>, count: nat)
    requires Sound(s) && s.reader.ReaderIdle? && s.writer.WriterIdle? && s.readOpen && s.writeOpen
    ensures var w := After(s, StartsWrite(data));
            && (w.writer.WriterBlocked? <==> |s.contents| + |data| > 4096)
            && (w.writer.WriterBlocked? ==>
                  w.writer.written == 4096 - |s.contents| && After(w, StartsRead(count)).writer ==
                  WriterReady(data, 4096 - |s.contents|))
            && (w.writer.WriterIdle? ==>
                  w.contents == s.contents + data && w.log == s.log + [HasWritten(data, |data|, false)])
  {
    assert data[0..|data|] == data;
  }

  // ----- Every run ----------------------------------------------------------------------

  /** What the reads returned, then what the queue holds, is what was there at first and what the writes stored. */
  predicate Conserved(first: seq<Byte>, s: State) {
    Truthful(s.log) && AllRead(s.log) + s.contents == first + AllWritten(s.log) + InFlight(s.writer)
  }

  lemma ReadsConserve(first: seq<Byte>, s: State, count: nat)
    requires Sound(s) && Conserved(first, s)
    ensures Conserved(first, Reads(s, count))
  {
    if s.contents != [] || !s.writeOpen {
      var n := Min(count, |s.contents|);
      Logged(s.log, HasRead(s.contents[..n]));
      TruthfulMore(s.log, HasRead(s.contents[..n]));
      Associates(AllRead(s.log), s.contents[..n], s.contents[n..]);
      assert s.contents[..n] + s.contents[n..] == s.contents;
    }
  }

  /** Bytes move from the data to the end of the queue. */
  lemma StoreKeeps(read: seq<Byte>, contents: seq<Byte>, stored: seq<Byte>, data: seq<Byte>, written: nat, n: nat)
    requires written <= n <= |data| && read + contents == stored + data[..written]
    ensures read + (contents + data[written..n]) == stored + data[..n]
  {
    Associates(read, contents, data[written..n]);
    StretchJoins(stored, data, written, n);
  }

  lemma TruthfulMore(log: seq<Event>, e: Event)
    requires Truthful(log) && (e.HasWritten? ==> e.stored <= |e.data| && (!e.broken ==> e.stored == |e.data|))
    ensures Truthful(log + [e])
  {
  }

  /** A write comes back: what it has stored is in the log. */
  lemma WriteLogged(first: seq<Byte>, log: seq<Event>, contents: seq<Byte>, data: seq<Byte>, n: nat, broken: bool)
    requires n <= |data| && (!broken ==> n == |data|) && Truthful(log)
    requires AllRead(log) + contents == first + AllWritten(log) + data[..n]
    ensures var longer := log + [HasWritten(data, n, broken)];
            Truthful(longer) && AllRead(longer) + contents == first + AllWritten(longer)
  {
    Logged(log, HasWritten(data, n, broken));
    TruthfulMore(log, HasWritten(data, n, broken));
    Associates(first, AllWritten(log), data[..n]);
  }

  lemma WritesConserve(first: seq<Byte>, s: State, data: seq<Byte>, written: nat)
    requires |s.contents| <= PIPE_BUF_SIZE && written <= |data| && Conserved(first, s)
    requires InFlight(s.writer) == data[..written]
    ensures Conserved(first, Writes(s, data, written))
  {
    var n := Min(|data|, written + PIPE_BUF_SIZE - |s.contents|);
    var contents := s.contents + data[written..n];
    StoreKeeps(AllRead(s.log), s.contents, first + AllWritten(s.log), data, written, n);
    StretchEnds(first, s, Writes(s, data, written), contents, data, n);
  }

  lemma StretchEnds(first: seq<Byte>, s: State, r: State, contents: seq<Byte>, data: seq<Byte>, n: nat)
    requires Truthful(s.log) && n <= |data| && AllRead(s.log) + contents == first + AllWritten(s.log) + data[..n]
    requires r.contents == contents
    requires if n < |data| && s.readOpen then r.log == s.log && r.writer == WriterBlocked(data, n)
             else r.log == s.log + [HasWritten(data, n, n < |data|)] && r.writer == WriterIdle
    ensures Conserved(first, r)
  {
    if !(n < |data| && s.readOpen) {
      WriteLogged(first, s.log, contents, data, n, n < |data|);
      assert InFlight(r.writer) == [];
      assert first + AllWritten(r.log) + [] == first + AllWritten(r.log);
    }
  }

  lemma AfterConserves(first: seq<Byte>, s: State, step: Step)
    requires Sound(s) && Conserved(first, s)
    ensures Conserved(first, After(s, step))
  {
    match step {
      case StartsRead(count) => ReadsConserve(first, s, count);
      case ResumesRead => if s.reader.ReaderReady? { ReadsConserve(first, s, s.reader.wanted); }
      case StartsWrite(data) =>
        if s.writer.WriterIdle? {
          assert data[..0] == [];
          if s.readOpen {
            WritesConserve(first, s, data, 0);
          } else {
            WriteLogged(first, s.log, s.contents, data, 0, true);
          }
        }
      case ResumesWrite =>
        if s.writer.WriterReady? { WritesConserve(first, s, s.writer.data, s.writer.written); }
      case _ =>
    }
  }

  /** Over every run no byte is lost, made up or overtaken; when no write broke, what came out and what is
      inside are the whole data of the finished writes and the stored part of the unfinished one. */
  lemma {:induction false} RunConserves(first: seq<Byte>, s: State, steps: seq<Step>)
    requires Sound(s) && Conserved(first, s)
    ensures var r := Runs(s, steps);
            && Conserved(first, r)
            && ((forall e | e in r.log && e.HasWritten? :: !e.broken) ==>
                  AllRead(r.log) + r.contents == first + AllData(r.log) + InFlight(r.writer))
  {
    var r := Runs(s, steps);
    if steps != [] {
      RunConserves(first, s, steps[..|steps| - 1]);
      AfterConserves(first, Runs(s, steps[..|steps| - 1]), steps[|steps| - 1]);
    }
    if forall e | e in r.log && e.HasWritten? :: !e.broken { UnbrokenData(r.log); }
  }

  /** The data of the writes in the log and of the unfinished one. */
  function Taken(s: State): seq<seq<Byte>> {
    DataOf(s.log) + if s.writer.WriterIdle? then [] else [s.writer.data]
  }

  function DataOf(log: seq<Event>): seq<seq<Byte>> {
    if log == [] then [] else
    var e := log[|log| - 1];
    DataOf(log[..|log| - 1]) + if e.HasWritten? then [e.data] else []
  }

  /** The data of the writes that the steps start, in order. */
  function Started(s: State, steps: seq<Step>): seq<seq<Byte>>
    requires Sound(s)
  {
    if steps == [] then [] else
    var (before, step) := (Runs(s, steps[..|steps| - 1]), steps[|steps| - 1]);
    Started(s, steps[..|steps| - 1]) +
    if step.StartsWrite? && before.writer.WriterIdle? && before.writeOpen then [step.data] else []
  }

  lemma DataLogged(log: seq<Event>, e: Event)
    ensures DataOf(log + [e]) == DataOf(log) + if e.HasWritten? then [e.data] else []
  {
    assert (log + [e])[..|log|] == log;
  }

  lemma ReadsTake(s: State, count: nat)
    ensures Taken(Reads(s, count)) == Taken(s)
  {
    DataLogged(s.log, HasRead(s.contents[..Min(count, |s.contents|)]));
  }

  lemma WritesTake(s: State, data: seq<Byte>, written: nat)
    requires |s.contents| <= PIPE_BUF_SIZE && written <= |data|
    ensures Taken(Writes(s, data, written)) == DataOf(s.log) + [data]
  {
    var n := Min(|data|, written + PIPE_BUF_SIZE - |s.contents|);
    DataLogged(s.log, HasWritten(data, n, n < |data|));
  }

  lemma AfterTakes(s: State, step: Step)
    requires Sound(s)
    ensures Taken(After(s, step)) ==
            Taken(s) + if step.StartsWrite? && s.writer.WriterIdle? && s.writeOpen then [step.data] else []
  {
    match step {
      case StartsRead(count) => ReadsTake(s, count);
      case ResumesRead => if s.reader.ReaderReady? { ReadsTake(s, s.reader.wanted); }
      case StartsWrite(data) =>
        WritesTake(s, data, 0);
        DataLogged(s.log, HasWritten(data, 0, true));
      case ResumesWrite => if s.writer.WriterReady? { WritesTake(s, s.writer.data, s.writer.written); }
      case _ =>
    }
  }

  /** Each write that was started is in the log or unfinished, in the order of the steps. */
  lemma {:induction false} RunTakes(s: State, steps: seq<Step>)
    requires Sound(s)
    ensures Taken(Runs(s, steps)) == Taken(s) + Started(s, steps)
  {
    if steps != [] {
      RunTakes(s, steps[..|steps| - 1]);
      AfterTakes(Runs(s, steps[..|steps| - 1]), steps[|steps| - 1]);
    }
  }

  lemma IdleConserved(s: State)
    requires s.log == [] && s.writer.WriterIdle?
    ensures Conserved(s.contents, s) && Taken(s) == []
  {
    assert AllRead(s.log) == [] && AllWritten(s.log) == [] && InFlight(s.writer) == [];
  }

  /** From a queue on which no write is under way. */
  lemma RunFromIdle(s: State, steps: seq<Step>)
    requires Sound(s) && s.log == [] && s.writer.WriterIdle?
    ensures Conserved(s.contents, Runs(s, steps))
    ensures Taken(Runs(s, steps)) == Started(s, steps)
  {
    IdleConserved(s);
    RunConserves(s.contents, s, steps);
    TakenFromIdle(s, steps);
  }

  lemma TakenFromIdle(s: State, steps: seq<Step>)
    requires Sound(s) && Taken(s) == []
    ensures Taken(Runs(s, steps)) == Started(s, steps)
  {
    RunTakes(s, steps);
    assert [] + Started(s, steps) == Started(s, steps);
  }
}
