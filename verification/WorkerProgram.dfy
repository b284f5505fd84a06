/** Whole runs: the memory instructions of a query, executed one after the other, behave as on a flat
    byte store, whatever pages were faulted, evicted, written back or refused on the way. */
module WorkerProgram {
  import opened Common
  import opened Arithmetic
  import opened PageCache
  import opened Replacement
  import opened PageTurns
  import opened LruStack
  import opened FlatStore
  import opened WorkerMemory

  /** What an instruction asks of the internal memory; `Skip` asks nothing. */
  datatype Instruction =
    | Read(ft: FileTag, base: nat, size: nat)
    | Write(ft: FileTag, base: nat, data: seq<Byte>)
    | Flush(ft: FileTag)
    | FlushAll
    | Skip

  /** Return code, bytes transferred before a failure, and the caller's buffer. */
  datatype Outcome = Outcome(rc: int, done: nat, bytes: seq<Byte>)

  // Positions and sizes are size_t values.
  predicate Fits(i: Instruction) {
    match i
    case Read(_, base, size) => base < U64 && size < U64
    case Write(_, base, data) => base < U64 && |data| < U64
    case _ => true
  }

  function SizeOf(i: Instruction): nat {
    match i
    case Read(_, _, size) => size
    case Write(_, _, data) => |data|
    case _ => 0
  }

  predicate Accesses(i: Instruction) { i.Read? || i.Write? }

  predicate Failed(o: Outcome) { o.rc != 0 }

  // How many instructions failed.
  function Failures(outs: seq<Outcome>): nat { Count(outs, (o: Outcome) => Failed(o)) }

  // The pages that the first n bytes of an instruction touch, in order.
  function Touched(ps: nat, i: Instruction, n: nat): seq<PageId>
    requires ps > 0
  {
    match i
    case Read(ft, base, _) => Turns(ps, ft, base, n)
    case Write(ft, base, _) => Turns(ps, ft, base, n)
    case _ => []
  }

  // What a successful flush leaves in Storage, when readers see `flat`.
  ghost predicate Persisted(pages: Pages, flat: Pages, i: Instruction, o: Outcome) {
    o.rc == 0 ==>
      && (i.Flush? ==> forall p :: p in pages && p.ft == i.ft ==> p in flat && pages[p] == flat[p])
      && (i.FlushAll? ==> pages == flat)
  }

  // The flat store after one instruction with outcome o.
  ghost function Effect(flat: Pages, ps: nat, i: Instruction, o: Outcome): (r: Pages)
    requires ps > 0 && Sized(flat, ps)
    ensures r.Keys == flat.Keys && Sized(r, ps)
  {
    if i.Write? && o.done <= |i.data| then WriteFlat(flat, ps, i.ft, i.base, i.data, o.done) else flat
  }

  // Outcome o is right for instruction i on flat store `flat`.
  ghost predicate Right(flat: Pages, ps: nat, i: Instruction, o: Outcome)
    requires ps > 0 && Sized(flat, ps)
  {
    && (o.rc == 0 || o.rc == -1)
    && (i.Read? || i.Write? ==> o.done <= SizeOf(i) && (o.rc == 0 <==> o.done == SizeOf(i)) && Mapped(flat, ps, i.ft, i.base, o.done))
    && (i.Read? ==> |o.bytes| == i.size && ReadFlat(flat, ps, i.ft, i.base, o.bytes, o.done))
  }

  /** The flat store after a run. */
  ghost function FlatAfter(flat: Pages, ps: nat, run: seq<Instruction>, outs: seq<Outcome>): (r: Pages)
    requires ps > 0 && Sized(flat, ps) && |outs| == |run|
    ensures r.Keys == flat.Keys && Sized(r, ps)
  {
    if run == [] then flat
    else
      var n := |run| - 1;
      Effect(FlatAfter(flat, ps, run[..n], outs[..n]), ps, run[n], outs[n])
  }

  /** Every outcome of the run is the one the flat store gives at that point. */
  ghost predicate Agrees(flat: Pages, ps: nat, run: seq<Instruction>, outs: seq<Outcome>)
    requires ps > 0 && Sized(flat, ps)
  {
    && |outs| == |run|
    && forall k :: 0 <= k < |run| ==> Right(FlatAfter(flat, ps, run[..k], outs[..k]), ps, run[k], outs[k])
  }

  // No access of the run failed.
  ghost predicate Succeeds(run: seq<Instruction>, outs: seq<Outcome>)
    requires |outs| == |run|
  {
    forall k :: 0 <= k < |run| && Accesses(run[k]) ==> outs[k].rc == 0
  }

  /** The pages a run touched, in order. */
  function TouchedBy(ps: nat, run: seq<Instruction>, outs: seq<Outcome>): seq<PageId>
    requires ps > 0 && |outs| == |run|
  {
    if run == [] then []
    else
      var n := |run| - 1;
      TouchedBy(ps, run[..n], outs[..n]) + Touched(ps, run[n], outs[n].done)
  }

  /** The pages that the text of a run asks for, in order. */
  function Requested(ps: nat, run: seq<Instruction>): seq<PageId>
    requires ps > 0
  {
    if run == [] then []
    else
      var n := |run| - 1;
      Requested(ps, run[..n]) + Touched(ps, run[n], SizeOf(run[n]))
  }

  /** A run without failures touches what its text asks for. */
  lemma {:induction false} TouchesRequested(flat: Pages, ps: nat, run: seq<Instruction>, outs: seq<Outcome>)
    requires ps > 0 && Sized(flat, ps) && Agrees(flat, ps, run, outs) && Succeeds(run, outs)
    ensures TouchedBy(ps, run, outs) == Requested(ps, run)
  {
    if run != [] {
      var n := |run| - 1;
      AgreesBefore(flat, ps, run, outs, n);
      TouchesRequested(flat, ps, run[..n], outs[..n]);
      assert Right(FlatAfter(flat, ps, run[..n], outs[..n]), ps, run[n], outs[n]);
    }
  }

  lemma AgreesBefore(flat: Pages, ps: nat, run: seq<Instruction>, outs: seq<Outcome>, n: nat)
    requires ps > 0 && Sized(flat, ps) && Agrees(flat, ps, run, outs) && n <= |run|
    ensures Agrees(flat, ps, run[..n], outs[..n])
  {
    forall k | 0 <= k < n
      ensures Right(FlatAfter(flat, ps, run[..n][..k], outs[..n][..k]), ps, run[..n][k], outs[..n][k])
    {
      assert run[..n][..k] == run[..k] && outs[..n][..k] == outs[..k];
    }
  }

  lemma Extend(flat: Pages, ps: nat, run: seq<Instruction>, outs: seq<Outcome>, i: Instruction, o: Outcome)
    requires ps > 0 && Sized(flat, ps) && Agrees(flat, ps, run, outs)
    requires Right(FlatAfter(flat, ps, run, outs), ps, i, o)
    ensures Agrees(flat, ps, run + [i], outs + [o])
    ensures FlatAfter(flat, ps, run + [i], outs + [o]) == Effect(FlatAfter(flat, ps, run, outs), ps, i, o)
  {
    hide Right, Effect, Sized;
    var run', outs' := run + [i], outs + [o];
    assert run'[..|run|] == run && outs'[..|run|] == outs;
    forall k | 0 <= k < |run'| ensures Right(FlatAfter(flat, ps, run'[..k], outs'[..k]), ps, run'[k], outs'[k]) {
      if k < |run| {
        assert run'[..k] == run[..k] && outs'[..k] == outs[..k];
      }
    }
  }

  // A run taken apart at its last instruction.
  lemma LastStep(flat: Pages, ps: nat, run: seq<Instruction>, outs: seq<Outcome>)
    requires ps > 0 && Sized(flat, ps) && Agrees(flat, ps, run, outs)
    ensures |outs| == |run|
    ensures run == [] ==> FlatAfter(flat, ps, run, outs) == flat
    ensures run != [] ==>
              var n := |run| - 1;
              var before := FlatAfter(flat, ps, run[..n], outs[..n]);
              && Agrees(flat, ps, run[..n], outs[..n]) && Right(before, ps, run[n], outs[n])
              && FlatAfter(flat, ps, run, outs) == Effect(before, ps, run[n], outs[n])
  {
    AgreesLength(flat, ps, run, outs);
    FlatUnfolds(flat, ps, run, outs);
    if run != [] {
      AgreesBefore(flat, ps, run, outs, |run| - 1);
      assert Right(FlatAfter(flat, ps, run[..|run| - 1], outs[..|run| - 1]), ps, run[|run| - 1], outs[|run| - 1]);
    }
    hide FlatAfter, Right, Effect, Sized;
  }

  lemma AgreesLength(flat: Pages, ps: nat, run: seq<Instruction>, outs: seq<Outcome>)
    requires ps > 0 && Sized(flat, ps) && Agrees(flat, ps, run, outs)
    ensures |outs| == |run|
  {
  }

  lemma FlatUnfolds(flat: Pages, ps: nat, run: seq<Instruction>, outs: seq<Outcome>)
    requires ps > 0 && Sized(flat, ps) && |outs| == |run|
    ensures run == [] ==> FlatAfter(flat, ps, run, outs) == flat
    ensures run != [] ==>
              var n := |run| - 1;
              FlatAfter(flat, ps, run, outs) == Effect(FlatAfter(flat, ps, run[..n], outs[..n]), ps, run[n], outs[n])
  {
    hide Effect, Sized;
  }

  /** A run and then another, from where the first ended, are one run. */
  lemma {:induction false} RunsJoin(flat: Pages, ps: nat, a: seq<Instruction>, x: seq<Outcome>, b: seq<Instruction>, y: seq<Outcome>)
    requires ps > 0 && Sized(flat, ps) && |x| == |a| && Agrees(flat, ps, a, x)
    requires Agrees(FlatAfter(flat, ps, a, x), ps, b, y)
    ensures |x + y| == |a + b| && Agrees(flat, ps, a + b, x + y)
    ensures |y| == |b| && FlatAfter(flat, ps, a + b, x + y) == FlatAfter(FlatAfter(flat, ps, a, x), ps, b, y)
    decreases |b|
  {
    hide *;
    var mid := FlatAfter(flat, ps, a, x);
    LastStep(mid, ps, b, y);
    if b == [] {
      assert a + b == a && x + y == x;
    } else {
      var n := |b| - 1;
      RunsJoin(flat, ps, a, x, b[..n], y[..n]);
      Extend(flat, ps, a + b[..n], x + y[..n], b[n], y[n]);
      assert a + b == a + b[..n] + [b[n]] && x + y == x + y[..n] + [y[n]];
    }
  }

  lemma EmptyRun(flat: Pages, ps: nat)
    requires ps > 0 && Sized(flat, ps)
    ensures Agrees(flat, ps, [], []) && FlatAfter(flat, ps, [], []) == flat
  {
  }

  /** Byte o of page p after the run: the last write that reached it, else the initial byte. */
  ghost function LastWritten(flat: Pages, ps: nat, run: seq<Instruction>, outs: seq<Outcome>, p: PageId, o: nat): Byte
    requires Sized(flat, ps) && |outs| == |run| && p in flat && o < ps
  {
    if run == [] then flat[p][o]
    else
      var n := |run| - 1;
      var pos := Position(ps, p.number, o);
      if run[n].Write? && run[n].ft == p.ft && run[n].base <= pos < run[n].base + outs[n].done && pos - run[n].base < |run[n].data|
      then run[n].data[pos - run[n].base]
      else LastWritten(flat, ps, run[..n], outs[..n], p, o)
  }

  /** Last write wins, for every run whose writes stay below page 2^32. */
  lemma {:induction false} LastWriteWins(flat: Pages, ps: nat, run: seq<Instruction>, outs: seq<Outcome>, p: PageId, o: nat)
    requires 0 < ps < 0x8000_0000 && Sized(flat, ps) && |outs| == |run| && p in flat && o < ps
    requires forall k :: 0 <= k < |run| && run[k].Write? ==> outs[k].done <= |run[k].data| && InRange(ps, run[k].base, outs[k].done)
    ensures FlatAfter(flat, ps, run, outs)[p][o] == LastWritten(flat, ps, run, outs, p, o)
  {
    if run != [] {
      var n := |run| - 1;
      LastWriteWins(flat, ps, run[..n], outs[..n], p, o);
      if run[n].Write? {
        WriteFlatExact(FlatAfter(flat, ps, run[..n], outs[..n]), ps, run[n].ft, run[n].base, run[n].data, outs[n].done,
                       p, o, Position(ps, p.number, o));
      }
    }
  }

  // In range, byte j of what a read returns is the byte of the flat store at that position.
  lemma ReadByte(flat: Pages, ps: nat, i: Instruction, out: Outcome, j: nat, p: PageId, o: nat)
    requires 0 < ps < 0x8000_0000 && Sized(flat, ps) && Right(flat, ps, i, out)
    requires i.Read? && j < out.done && InRange(ps, i.base, out.done)
    requires p.ft == i.ft && o < ps && Position(ps, p.number, o) == i.base + j
    ensures p in flat && |out.bytes| == i.size && j < i.size && out.bytes[j] == flat[p][o]
  {
    HereIffPosition(ps, i.ft, i.base, j, p, o, i.base + j);
    hide Locate, WriteFlat, Position;
  }

  /** Read your writes, over whole runs: byte j that a read returns is the one last written at its
      position, else the initial one, for every run that stays below page 2^32. */
  lemma ReadsSeeLastWrite(flat: Pages, ps: nat, run: seq<Instruction>, outs: seq<Outcome>, k: nat, j: nat, p: PageId, o: nat)
    requires 0 < ps < 0x8000_0000 && Sized(flat, ps) && Agrees(flat, ps, run, outs)
    requires k < |run| && run[k].Read? && j < outs[k].done
    requires forall i :: 0 <= i <= k && Accesses(run[i]) ==> InRange(ps, run[i].base, outs[i].done)
    requires p.ft == run[k].ft && o < ps && Position(ps, p.number, o) == run[k].base + j
    ensures p in flat && |outs[k].bytes| == run[k].size && j < run[k].size
    ensures outs[k].bytes[j] == LastWritten(flat, ps, run[..k], outs[..k], p, o)
  {
    hide FlatAfter, LastWritten, Sized, InRange, Position;
    assert Right(FlatAfter(flat, ps, run[..k], outs[..k]), ps, run[k], outs[k]);
    forall i | 0 <= i < k && run[..k][i].Write?
      ensures outs[..k][i].done <= |run[..k][i].data| && InRange(ps, run[..k][i].base, outs[..k][i].done)
    {
      assert run[..k][i] == run[i] && outs[..k][i] == outs[i];
      assert Right(FlatAfter(flat, ps, run[..i], outs[..i]), ps, run[i], outs[i]);
    }
    hide Right, Agrees;
    ReadByte(FlatAfter(flat, ps, run[..k], outs[..k]), ps, run[k], outs[k], j, p, o);
    LastWriteWins(flat, ps, run[..k], outs[..k], p, o);
  }

  // ---------- a memory running a query ----------

  /** What a memory stands for at one moment: the bytes readers see, the pages accessed so far, whether
      the LRU conditions held so far, Storage, whether there are frames, and the requests refused so far. */
  datatype Moment = Moment(flat: Pages, history: seq<PageId>, strict: bool, spaced: bool, pages: Pages, frames: bool, refused: nat)

  ghost function Now(m: Memory): (x: Moment)
    requires m.Valid()
    reads m, m.ram, m.frames, m.store`pages, m.store`refused
    ensures m.pageSize > 0 && Sized(x.flat, m.pageSize)
  {
    Moment(m.Flat(), m.history, m.strict, m.Spaced(), m.store.pages, m.frames.Length > 0, m.store.refused)
  }

  // The moment at which a memory is new.
  function Fresh(pages: Pages, spaced: bool, frames: bool, refused: nat): Moment {
    Moment(pages, [], true, spaced, pages, frames, refused)
  }

  /** One instruction, from x to y: its outcome and its bytes are those of the flat store, the pages of
      the request were accessed in order, a successful flush has made Storage agree, and it fails only at
      the first request that is refused or for want of a frame. */
  ghost predicate Stepped(ps: nat, x: Moment, y: Moment, i: Instruction, o: Outcome)
    requires ps > 0 && Sized(x.flat, ps)
  {
    && Right(x.flat, ps, i, o) && y.flat == Effect(x.flat, ps, i, o)
    && y.history == x.history + Touched(ps, i, o.done)
    && (y.spaced ==> x.spaced)
    && ((Accesses(i) ==> o.rc == 0) && x.strict && y.spaced ==> y.strict)
    && Persisted(y.pages, y.flat, i, o)
    && y.frames == x.frames && y.refused == x.refused + if Failed(o) && x.frames then 1 else 0
  }

  /** The same for a run. `stores[k]` is Storage after instruction k. */
  ghost predicate Ran(ps: nat, x: Moment, y: Moment, run: seq<Instruction>, outs: seq<Outcome>, stores: seq<Pages>)
    requires ps > 0 && Sized(x.flat, ps)
  {
    && Agrees(x.flat, ps, run, outs) && y.flat == FlatAfter(x.flat, ps, run, outs)
    && y.history == x.history + TouchedBy(ps, run, outs)
    && (y.spaced ==> x.spaced)
    && (Succeeds(run, outs) && x.strict && y.spaced ==> y.strict)
    && |stores| == |run| && y.pages == (if run == [] then x.pages else stores[|run| - 1])
    && Flushed(x.flat, ps, run, outs, stores)
    && y.frames == x.frames && y.refused == x.refused + if x.frames then Failures(outs) else 0
  }

  /** On a memory with frames, every instruction of a run returns 0 if and only if Storage refused none of
      its requests. */
  lemma SucceedsIffGranted(ps: nat, x: Moment, y: Moment, run: seq<Instruction>, outs: seq<Outcome>, stores: seq<Pages>)
    requires ps > 0 && Sized(x.flat, ps) && Ran(ps, x, y, run, outs, stores) && x.frames
    ensures |outs| == |run|
    ensures y.refused == x.refused <==> forall k :: 0 <= k < |run| ==> outs[k].rc == 0
    ensures y.refused == x.refused ==> Succeeds(run, outs)
  {
    hide Agrees, FlatAfter, TouchedBy, Flushed, Sized;
    AgreesLength(x.flat, ps, run, outs);
    if y.refused == x.refused {
      forall k | 0 <= k < |outs| ensures outs[k].rc == 0 {
        if Failed(outs[k]) { CountPositive(outs, k, (o: Outcome) => Failed(o)); }
      }
    } else {
      var k := CountWitness(outs, (o: Outcome) => Failed(o));
    }
  }

  // Whenever a flush of the run succeeded, Storage had the bytes of that moment.
  ghost predicate Flushed(flat: Pages, ps: nat, run: seq<Instruction>, outs: seq<Outcome>, stores: seq<Pages>)
    requires ps > 0 && Sized(flat, ps) && |outs| == |run| == |stores|
  {
    forall k :: 0 <= k < |run| ==> Persisted(stores[k], FlatAfter(flat, ps, run[..k + 1], outs[..k + 1]), run[k], outs[k])
  }

  lemma FlushedStep(flat: Pages, ps: nat, run: seq<Instruction>, outs: seq<Outcome>, stores: seq<Pages>,
                    i: Instruction, o: Outcome, pages: Pages)
    requires ps > 0 && Sized(flat, ps) && |outs| == |run| == |stores| && Flushed(flat, ps, run, outs, stores)
    requires Persisted(pages, FlatAfter(flat, ps, run + [i], outs + [o]), i, o)
    ensures Flushed(flat, ps, run + [i], outs + [o], stores + [pages])
  {
    hide Persisted, FlatAfter;
    var run', outs', stores' := run + [i], outs + [o], stores + [pages];
    forall k | 0 <= k < |run'|
      ensures Persisted(stores'[k], FlatAfter(flat, ps, run'[..k + 1], outs'[..k + 1]), run'[k], outs'[k])
    {
      if k < |run| {
        assert run'[..k + 1] == run[..k + 1] && outs'[..k + 1] == outs[..k + 1];
      } else {
        assert run'[..k + 1] == run' && outs'[..k + 1] == outs';
      }
    }
  }

  lemma TouchedStep(ps: nat, run: seq<Instruction>, outs: seq<Outcome>, i: Instruction, o: Outcome)
    requires ps > 0 && |outs| == |run|
    ensures TouchedBy(ps, run + [i], outs + [o]) == TouchedBy(ps, run, outs) + Touched(ps, i, o.done)
    ensures Succeeds(run + [i], outs + [o]) ==> Succeeds(run, outs) && (Accesses(i) ==> o.rc == 0)
  {
    assert (run + [i])[..|run|] == run && (outs + [o])[..|run|] == outs;
    if Succeeds(run + [i], outs + [o]) {
      assert (run + [i])[|run|] == i && (outs + [o])[|run|] == o;
      forall k | 0 <= k < |run| && Accesses(run[k]) ensures outs[k].rc == 0 {
        assert (run + [i])[k] == run[k] && (outs + [o])[k] == outs[k];
      }
    }
  }

  lemma FailuresStep(outs: seq<Outcome>, o: Outcome)
    ensures Failures(outs + [o]) == Failures(outs) + if Failed(o) then 1 else 0
  {
    CountAppend(outs, o, (o: Outcome) => Failed(o));
  }

  lemma RanNothing(ps: nat, x: Moment)
    requires ps > 0 && Sized(x.flat, ps)
    ensures Ran(ps, x, x, [], [], [])
  {
    assert Failures([]) == 0;
    EmptyRun(x.flat, ps);
  }

  lemma RanStep(ps: nat, x: Moment, y: Moment, z: Moment, run: seq<Instruction>, outs: seq<Outcome>, stores: seq<Pages>,
                i: Instruction, o: Outcome)
    requires ps > 0 && Sized(x.flat, ps) && Sized(y.flat, ps)
    requires Ran(ps, x, y, run, outs, stores) && Stepped(ps, y, z, i, o)
    ensures Ran(ps, x, z, run + [i], outs + [o], stores + [z.pages])
  {
    hide Right, Effect, FlatAfter, TouchedBy, Touched, Succeeds, Persisted, Flushed, Sized, Accesses;
    assert |outs| == |run|;
    hide Agrees;
    Extend(x.flat, ps, run, outs, i, o);
    TouchedStep(ps, run, outs, i, o);
    FailuresStep(outs, o);
    hide Failures, Failed;
    FlushedStep(x.flat, ps, run, outs, stores, i, o, z.pages);
  }

  /** The memory side of ejecutar_instruccion. */
  method Execute(m: Memory, i: Instruction) returns (o: Outcome)
    requires m.Valid() && Fits(i)
    modifies m`hand, m`clock, m`history, m`misses, m`strict, m.ram, m.frames, m.store
    ensures m.Valid() && Stepped(m.pageSize, old(Now(m)), Now(m), i, o)
    ensures if Accesses(i) then
              Accessed(m.policy, old(m.frames[..]), old(m.hand), m.frames[..], m.hand, Touched(m.pageSize, i, o.done), i.Write?, o.rc == 0)
            else FlushedOnly(old(m.frames[..]), m.frames[..]) && m.hand == old(m.hand)
  {
    hide Memory.Valid, Now, Stepped, Fits, Accessed, FlushedOnly, Touched;
    match i
    case Read(ft, base, size) => o := ExecuteRead(m, ft, base, size);
    case Write(ft, base, data) => o := ExecuteWrite(m, ft, base, data);
    case _ => o := ExecuteFlush(m, i);
  }

  method ExecuteRead(m: Memory, ft: FileTag, base: nat, size: nat) returns (o: Outcome)
    requires m.Valid() && Fits(Read(ft, base, size))
    modifies m`hand, m`clock, m`history, m`misses, m`strict, m.ram, m.frames, m.store
    ensures m.Valid() && Stepped(m.pageSize, old(Now(m)), Now(m), Read(ft, base, size), o)
    ensures Accessed(m.policy, old(m.frames[..]), old(m.hand), m.frames[..], m.hand,
                     Touched(m.pageSize, Read(ft, base, size), o.done), false, o.rc == 0)
  {
    hide Cache.Flat, Cache.Valid, Memory.LruState, WriteFlat, ReadFlat, Mapped, Turns, Sized, Accessed, Persisted;
    var buffer := new Byte[size];
    var rc, done := m.AccessMemory(ft, base, size, false, [], buffer);
    o := Outcome(rc, done, buffer[..]);
    NoFlush(m.store.pages, m.Flat(), Read(ft, base, size), o);
  }

  method ExecuteWrite(m: Memory, ft: FileTag, base: nat, data: seq<Byte>) returns (o: Outcome)
    requires m.Valid() && Fits(Write(ft, base, data))
    modifies m`hand, m`clock, m`history, m`misses, m`strict, m.ram, m.frames, m.store
    ensures m.Valid() && Stepped(m.pageSize, old(Now(m)), Now(m), Write(ft, base, data), o)
    ensures Accessed(m.policy, old(m.frames[..]), old(m.hand), m.frames[..], m.hand,
                     Touched(m.pageSize, Write(ft, base, data), o.done), true, o.rc == 0)
  {
    hide Cache.Flat, Cache.Valid, Memory.LruState, WriteFlat, ReadFlat, Mapped, Turns, Sized, Accessed, Persisted;
    var none := new Byte[0];
    var rc, done := m.AccessMemory(ft, base, |data|, true, data, none);
    o := Outcome(rc, done, []);
    NoFlush(m.store.pages, m.Flat(), Write(ft, base, data), o);
  }

  method ExecuteFlush(m: Memory, i: Instruction) returns (o: Outcome)
    requires m.Valid() && !Accesses(i)
    modifies m.frames, m.store
    ensures m.Valid() && Stepped(m.pageSize, old(Now(m)), Now(m), i, o)
    ensures FlushedOnly(old(m.frames[..]), m.frames[..])
  {
    hide Cache.Flat, Cache.Valid, Memory.LruState, WriteFlat, ReadFlat, Mapped, Sized, FlushedOnly;
    NothingFlushed(m.frames[..], m.store.pages, m.Flat(), FileTag("", ""));
    var rc := 0;
    if i.Flush? {
      rc := m.FlushFileTag(i.ft);
    } else if i.FlushAll? {
      rc := m.FlushAllModified();
    }
    o := Outcome(rc, 0, []);
  }

  lemma NoFlush(pages: Pages, flat: Pages, i: Instruction, o: Outcome)
    requires Accesses(i)
    ensures Persisted(pages, flat, i, o)
  {
  }

  // The execution loop of procesar_query over the lines first to last.
  method RunFrom(m: Memory, lines: seq<Instruction>, first: nat, last: nat, firstPc: nat)
    returns (outs: seq<Outcome>, pc: nat, ghost stores: seq<Pages>)
    requires m.Valid() && first <= last <= |lines| && forall k :: 0 <= k < |lines| ==> Fits(lines[k])
    modifies m`hand, m`clock, m`history, m`misses, m`strict, m.ram, m.frames, m.store
    ensures m.Valid() && pc == firstPc + (last - first)
    ensures Ran(m.pageSize, old(Now(m)), Now(m), lines[first..last], outs, stores)
  {
    hide *;
    ghost var start, ps := Now(m), m.pageSize;
    RanNothing(ps, start);
    outs, pc := [], firstPc;
    stores := [];
    ghost var run: seq<Instruction> := [];
    for line := first to last
      invariant m.Valid() && pc == firstPc + |run|
      invariant first + |run| == line
      invariant forall k :: 0 <= k < |run| ==> run[k] == lines[first + k]
      invariant Ran(ps, start, Now(m), run, outs, stores)
    {
      ghost var before := Now(m);
      var o := Execute(m, lines[line]);
      RanStep(ps, start, before, Now(m), run, outs, stores, lines[line], o);
      outs := outs + [o];
      run := run + [lines[line]];
      stores := stores + [Now(m).pages];
      pc := pc + 1;
    }
    assert run == lines[first..last];
  }

  // The first line that a query resumed at program counter `firstPc` executes.
  function FirstLine(firstPc: nat, length: nat): nat {
    if firstPc <= 1 then 0 else if firstPc - 1 <= length then firstPc - 1 else length
  }

  // The line at which the loop ends when it may execute `quota` lines.
  function LastLine(firstPc: nat, quota: nat, length: nat): nat {
    if FirstLine(firstPc, length) + quota <= length then FirstLine(firstPc, length) + quota else length
  }

  /** procesar_query: skip to the line of the program counter, then execute the remaining lines, until
      query_cancelada is seen after `quota` of them. The program counter advances by one per executed line. */
  method ProcessQuery(m: Memory, lines: seq<Instruction>, firstPc: nat, quota: nat)
    returns (outs: seq<Outcome>, pc: nat, ghost stores: seq<Pages>)
    requires m.Valid() && forall k :: 0 <= k < |lines| ==> Fits(lines[k])
    modifies m`hand, m`clock, m`history, m`misses, m`strict, m.ram, m.frames, m.store
    ensures m.Valid()
    ensures var first, last := FirstLine(firstPc, |lines|), LastLine(firstPc, quota, |lines|);
            && pc == (if firstPc > 0 then firstPc else 1) + (last - first)
            && Ran(m.pageSize, old(Now(m)), Now(m), lines[first..last], outs, stores)
  {
    hide Ran, Now, Fits, Memory.Valid, Sized;
    pc := if firstPc > 0 then firstPc else 1;
    var actual, line := 1, 0;
    while actual < pc && line < |lines|
      invariant line == actual - 1 <= |lines| && actual <= pc
    {
      line, actual := line + 1, actual + 1;
    }
    var last := if line + quota <= |lines| then line + quota else |lines|;
    outs, pc, stores := RunFrom(m, lines, line, last, pc);
  }

  /** A query, from any program counter, on a fresh memory. Under LRU, if no access fails and every wait
      moves the clock on, the resident pages and the number of misses are those of the pages that the text
      of the query asks for: the most recent distinct ones, as many as there are frames. */
  method RunFresh(size: nat, pageSize: nat, policy: Policy, delay: nat, store: PageStore, lines: seq<Instruction>, firstPc: nat)
    returns (m: Memory, outs: seq<Outcome>, pc: nat, ghost stores: seq<Pages>)
    requires 0 < pageSize < 0x8000_0000 && size < 0x8000_0000 && store.pageSize == pageSize && Sized(store.pages, pageSize)
    requires forall k :: 0 <= k < |lines| ==> Fits(lines[k])
    modifies store
    ensures fresh(m) && fresh(m.frames) && fresh(m.ram) && m.Valid()
    ensures m.pageSize == pageSize && m.policy == policy && m.delay == delay && m.store == store && m.frames.Length == size / pageSize
    ensures var run := lines[FirstLine(firstPc, |lines|)..];
            && |outs| == |run| && pc == (if firstPc > 0 then firstPc else 1) + |run|
            && Ran(pageSize, Fresh(old(store.pages), m.Pause() >= 1, size / pageSize > 0, old(store.refused)), Now(m), run, outs, stores)
            && (size / pageSize > 0 ==> (store.refused == old(store.refused) <==> forall k :: 0 <= k < |run| ==> outs[k].rc == 0))
            && (policy.LRU? && size / pageSize > 0 && Succeeds(run, outs) && m.Spaced() ==>
                  && m.strict && m.history == Requested(pageSize, run)
                  && m.misses == Misses(Requested(pageSize, run), size / pageSize)
                  && forall p :: Lookup(m.frames[..], p) >= 0 <==> p in Top(Stack(Requested(pageSize, run)), size / pageSize))
  {
    m := new Memory(size, pageSize, policy, delay, store);
    ghost var start := Now(m);
    outs, pc, stores := ProcessQuery(m, lines, firstPc, |lines|);
    ghost var run := lines[FirstLine(firstPc, |lines|)..];
    assert lines[FirstLine(firstPc, |lines|)..LastLine(firstPc, |lines|, |lines|)] == run;
    hide Memory.Valid, Now, Requested, Stack, Top, Misses, Succeeds, Agrees, FlatAfter, TouchedBy, Flushed, Sized;
    AgreesLength(start.flat, pageSize, run, outs);
    hide Ran;
    if size / pageSize > 0 { SucceedsIffGranted(pageSize, start, Now(m), run, outs, stores); }
    ResidencyOfRun(m, start, run, outs, stores);
  }

  // After a run without failures from an empty history, the history is what the text asks for.
  lemma HistoryOfRun(ps: nat, x: Moment, y: Moment, run: seq<Instruction>, outs: seq<Outcome>, stores: seq<Pages>)
    requires ps > 0 && Sized(x.flat, ps) && |outs| == |run| && Ran(ps, x, y, run, outs, stores)
    requires x.history == [] && x.strict && y.spaced && Succeeds(run, outs)
    ensures y.strict && y.history == Requested(ps, run)
  {
    TouchesRequested(x.flat, ps, run, outs);
    hide Agrees, FlatAfter, Succeeds, Flushed, Sized, TouchedBy, Requested;
  }

  // What the recency theorem says after such a run.
  lemma ResidencyOfRun(m: Memory, x: Moment, run: seq<Instruction>, outs: seq<Outcome>, stores: seq<Pages>)
    requires m.Valid() && Sized(x.flat, m.pageSize) && x.history == [] && x.strict
    requires |outs| == |run| && Ran(m.pageSize, x, Now(m), run, outs, stores)
    ensures var n, asked := m.frames.Length, Requested(m.pageSize, run);
            m.policy.LRU? && n > 0 && Succeeds(run, outs) && m.Spaced() ==>
              && m.strict && m.history == asked && m.misses == Misses(asked, n)
              && forall p :: Lookup(m.frames[..], p) >= 0 <==> p in Top(Stack(asked), n)
  {
    MomentOf(m);
    hide *;
    if m.policy.LRU? && m.frames.Length > 0 && Succeeds(run, outs) && m.Spaced() {
      HistoryOfRun(m.pageSize, x, Now(m), run, outs, stores);
      forall p ensures Lookup(m.frames[..], p) >= 0 <==> p in Top(Stack(m.history), m.frames.Length) {
        ResidentAreMostRecent(m, p);
      }
      ResidentAreMostRecent(m, PageId(FileTag("", ""), 0));
    }
  }

  lemma MomentOf(m: Memory)
    requires m.Valid()
    ensures Now(m).history == m.history && Now(m).strict == m.strict && Now(m).spaced == m.Spaced() && Now(m).pages == m.store.pages
    ensures Now(m).frames == (m.frames.Length > 0) && Now(m).refused == m.store.refused
  {
  }

  /** The same query on two fresh LRU memories: if no access fails on either, the one with more frames
      holds every page the other holds and has missed no more often. */
  method RunOnBoth(size: nat, larger: nat, pageSize: nat, delay: nat, store: PageStore, other: PageStore, lines: seq<Instruction>)
    returns (m: Memory, k: Memory, outs: seq<Outcome>, outs': seq<Outcome>)
    requires 0 < pageSize <= size <= larger < 0x8000_0000 && pageSize < 0x8000_0000 && store != other
    requires store.pageSize == pageSize && Sized(store.pages, pageSize) && other.pageSize == pageSize && Sized(other.pages, pageSize)
    requires forall k :: 0 <= k < |lines| ==> Fits(lines[k])
    modifies store, other
    ensures m.frames.Length == size / pageSize && k.frames.Length == larger / pageSize
    ensures |outs| == |lines| == |outs'|
    ensures Succeeds(lines, outs) && Succeeds(lines, outs') && m.Spaced() && k.Spaced() ==>
              && k.misses <= m.misses
              && forall p :: Lookup(m.frames[..], p) >= 0 ==> Lookup(k.frames[..], p) >= 0
  {
    assert lines[FirstLine(0, |lines|)..] == lines;
    hide *;
    QuotientMonotone(size, larger, pageSize);
    ghost var asked, n, n' := Requested(pageSize, lines), size / pageSize, larger / pageSize;
    MissesNeverRise(asked, n, n');
    forall p | p in Top(Stack(asked), n) ensures p in Top(Stack(asked), n') {
      TopGrows(Stack(asked), n, n', p);
    }
    ghost var stores;
    var pc;
    m, outs, pc, stores := RunFresh(size, pageSize, LRU, delay, store, lines, 0);
    ghost var fs := m.frames[..];
    k, outs', pc, stores := RunFresh(larger, pageSize, LRU, delay, other, lines, 0);
    assert m.frames[..] == fs;
  }

  /** A query stopped after any line, and the implicit flush that comes before an eviction is reported: the
      outcomes so far are those of the flat store, and if the flush succeeds Storage is the flat store. */
  method Evict(m: Memory, lines: seq<Instruction>, quota: nat) returns (rc: int, outs: seq<Outcome>, pc: nat)
    requires m.Valid() && forall k :: 0 <= k < |lines| ==> Fits(lines[k])
    modifies m`hand, m`clock, m`history, m`misses, m`strict, m.ram, m.frames, m.store
    ensures m.Valid()
    ensures var run := lines[..LastLine(0, quota, |lines|)];
            && pc == 1 + |run| && |outs| == |run|
            && Agrees(old(Now(m)).flat, m.pageSize, run, outs)
            && Now(m).flat == FlatAfter(old(Now(m)).flat, m.pageSize, run, outs)
            && (rc == 0 ==> m.store.pages == Now(m).flat)
            && m.store.refused == old(m.store.refused) + if m.frames.Length > 0 then Failures(outs) + (if rc == 0 then 0 else 1) else 0
  {
    assert Fits(FlushAll);
    LinesLeft(quota, |lines|);
    MomentOf(m);
    hide Memory.Valid, Now, Fits, Ran, Stepped, FirstLine, LastLine, Agrees, FlatAfter, Sized, Failures;
    ghost var start, last := Now(m), LastLine(0, quota, |lines|);
    ghost var stores;
    outs, pc, stores := ProcessQuery(m, lines, 0, quota);
    ghost var mid := Now(m);
    var flushed := Execute(m, FlushAll);
    rc := flushed.rc;
    WholePages(m);
    MomentOf(m);
    assert lines[0..last] == lines[..last];
    FlushedAfter(m.pageSize, start, mid, Now(m), lines[..last], outs, stores, flushed);
  }

  lemma FlushedAfter(ps: nat, x: Moment, y: Moment, z: Moment, run: seq<Instruction>, outs: seq<Outcome>, stores: seq<Pages>, o: Outcome)
    requires ps > 0 && Sized(x.flat, ps) && Sized(y.flat, ps) && Ran(ps, x, y, run, outs, stores) && Stepped(ps, y, z, FlushAll, o)
    ensures |outs| == |run| && Agrees(x.flat, ps, run, outs) && z.flat == FlatAfter(x.flat, ps, run, outs)
    ensures o.rc == 0 ==> z.pages == z.flat
    ensures z.frames == x.frames && z.refused == x.refused + if x.frames then Failures(outs) + (if o.rc == 0 then 0 else 1) else 0
  {
    AgreesLength(x.flat, ps, run, outs);
    hide Failures, FlatAfter, Agrees;
  }

  lemma WholePages(m: Memory)
    requires m.Valid()
    ensures 0 < m.pageSize < 0x8000_0000 && m.store.pageSize == m.pageSize && Sized(m.store.pages, m.pageSize)
    ensures Now(m).pages == m.store.pages
  {
  }

  lemma LinesLeft(quota: nat, length: nat)
    ensures var cut := LastLine(0, quota, length);
            cut <= length && FirstLine(0, length) == 0 && FirstLine(1 + cut, length) == cut
  {
  }

  /** procesar_query called again: a query runs up to any line, its memory is flushed, and the function is
      called on a fresh memory over the same Storage with the counter reached. If the flush succeeds the
      two runs together are one run of the whole query on the flat store. The messages between Master and
      Worker do not carry that counter (Codec.ResumeMisread). */
  method HandOver(m: Memory, lines: seq<Instruction>, quota: nat, size: nat, policy: Policy, delay: nat)
    returns (rc: int, outs: seq<Outcome>, pc: nat, next: Memory)
    requires m.Valid() && size < 0x8000_0000 && forall k :: 0 <= k < |lines| ==> Fits(lines[k])
    modifies m`hand, m`clock, m`history, m`misses, m`strict, m.ram, m.frames, m.store
    ensures next.Valid() && next.pageSize == m.pageSize && next.store == m.store && pc == 1 + |lines|
    ensures rc != 0 && m.frames.Length > 0 ==> m.store.refused > old(m.store.refused)
    ensures rc == 0 ==>
              && |outs| == |lines| && Agrees(old(Now(m)).flat, m.pageSize, lines, outs)
              && Now(next).flat == FlatAfter(old(Now(m)).flat, m.pageSize, lines, outs)
  {
    LinesLeft(quota, |lines|);
    hide Memory.Valid, Now, Fits, Ran, FirstLine, LastLine, Agrees, FlatAfter, Sized, Requested, Stack, Top, Misses, Lookup, Succeeds, Failures;
    ghost var flat, ps, cut := Now(m).flat, m.pageSize, LastLine(0, quota, |lines|);
    ghost var stores;
    rc, outs, pc := Evict(m, lines, quota);
    WholePages(m);
    ghost var begun, refused := m.store.pages, m.store.refused;
    var rest;
    next, rest, pc, stores := RunFresh(size, m.pageSize, policy, delay, m.store, lines, pc);
    ghost var start := Fresh(begun, next.Pause() >= 1, next.frames.Length > 0, refused);
    Resumed(ps, flat, begun, start, Now(next), lines, cut, outs, rest, stores, rc);
    outs := outs + rest;
  }

  // Run to the cut, and run on from what Storage has.
  lemma Resumed(ps: nat, flat: Pages, handed: Pages, x: Moment, y: Moment, lines: seq<Instruction>, cut: nat,
                outs: seq<Outcome>, rest: seq<Outcome>, stores: seq<Pages>, rc: int)
    requires ps > 0 && Sized(flat, ps) && Sized(x.flat, ps) && cut <= |lines| && x.flat == handed
    requires |outs| == |lines[..cut]| && Agrees(flat, ps, lines[..cut], outs)
    requires rc == 0 ==> handed == FlatAfter(flat, ps, lines[..cut], outs)
    requires Ran(ps, x, y, lines[cut..], rest, stores)
    ensures rc == 0 ==>
              && |outs + rest| == |lines| && Agrees(flat, ps, lines, outs + rest)
              && y.flat == FlatAfter(flat, ps, lines, outs + rest)
  {
    hide Agrees, FlatAfter, TouchedBy, Succeeds, Flushed, Sized;
    if rc == 0 {
      RunsJoin(flat, ps, lines[..cut], outs, lines[cut..], rest);
      assert lines[..cut] + lines[cut..] == lines;
    }
  }
}
