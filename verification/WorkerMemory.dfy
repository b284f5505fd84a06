/** The worker's internal memory: a RAM buffer cut into page frames, a write-back cache over Storage. */
module WorkerMemory {
  import opened Common
  import opened Arithmetic
  import opened PageCache
  import opened Replacement
  import opened PageTurns
  import opened LruStack
  import opened FlatStore

  // temporal_gettime returns a signed 64-bit number of milliseconds.
  const CLOCK_LIMIT: nat := 0x8000_0000_0000_0000

  /** Storage as one worker sees it through its socket: a map of pages whose requests may fail. */
  class PageStore {
    const pageSize: nat
    var pages: Pages

    // The page requests that were not granted: answered with an error, broken off, or for no page of Storage's.
    ghost var refused: nat

    constructor (pageSize: nat, pages: Pages)
      ensures this.pageSize == pageSize && this.pages == pages && refused == 0
    {
      this.pageSize := pageSize;
      this.pages := pages;
      refused := 0;
    }

    /** READ_BLOCK. When it fails, any part of a page may already have been received. */
    method ReadBlock(p: PageId) returns (ok: bool, received: seq<Byte>)
      requires Sized(pages, pageSize)
      modifies this`refused
      ensures |received| <= pageSize
      ensures ok ==> p in pages && received == pages[p]
      ensures refused == old(refused) + if ok then 0 else 1
    {
      var answered: bool := *;
      ok := answered && p in pages;
      if ok {
        received := pages[p];
      } else {
        refused := refused + 1;
        var nothing: seq<Byte> := [];
        assert |nothing| <= pageSize;
        received :| |received| <= pageSize;
      }
    }

    /** WRITE_BLOCK. A failure may mean that the page was not written or that the answer was lost. */
    method WriteBlock(p: PageId, data: Page) returns (ok: bool)
      requires Sized(pages, pageSize) && |data| == pageSize
      modifies this`pages, this`refused
      ensures Sized(pages, pageSize)
      ensures pages == old(pages) || (p in old(pages) && pages == old(pages)[p := data])
      ensures ok ==> p in old(pages) && pages == old(pages)[p := data]
      ensures refused == old(refused) + if ok then 0 else 1
    {
      var arrived: bool := *;
      var acknowledged: bool := *;
      ok := false;
      if arrived && p in pages {
        pages := pages[p := data];
        ok := acknowledged;
      }
      if !ok {
        refused := refused + 1;
      }
    }
  }

  class Memory {
    const pageSize: nat
    const policy: Policy
    const delay: nat   // RETARDO_MEMORIA, in milliseconds
    const store: PageStore
    const ram: array<Byte>
    const frames: array<Frame>
    var hand: nat   // PUNTERO_RELOJ
    var clock: nat  // the time: at least the last value milisegundos_actual() returned

    // The pages accessed so far, how many of those accesses missed, and whether every access so far
    // succeeded and ended at a time later than the last use of every other frame.
    ghost var history: seq<PageId>
    ghost var misses: nat
    ghost var strict: bool

    // Where each frame's slice of the RAM buffer starts; the constructor fixes frame i at i * pageSize.
    ghost const bases: seq<nat>

    ghost function Snap(): Cache
      reads ram, frames, store`pages
    {
      Cache(frames[..], ram[..], store.pages, pageSize)
    }

    ghost predicate Consistent()
      reads this, ram, frames, store`pages
    {
      && 0 < pageSize < 0x8000_0000 && store.pageSize == pageSize && frames.Length < 0x8000_0000
      && |bases| == frames.Length && (forall i :: 0 <= i < frames.Length ==> frames[i].base == bases[i])
      && Snap().Valid()
      && (frames.Length > 0 ==> hand < frames.Length)
      && clock < CLOCK_LIMIT
      && (forall i :: 0 <= i < frames.Length ==> frames[i].lastUsed <= clock)
    }

    ghost predicate LruState()
      reads this, frames
    {
      policy.LRU? && strict && frames.Length > 0 ==>
        Mirrors(frames[..], Stack(history)) && misses == Misses(history, frames.Length)
    }

    ghost predicate Valid()
      reads this, ram, frames, store`pages
    {
      Consistent() && LruState()
    }

    // The requests refused when a fetch ends like this: a fetch fails only for want of a frame or at its first refusal.
    function Refusals(ok: bool): nat { if ok || frames.Length == 0 then 0 else 1 }

    // The whole milliseconds that usleep waits at least; its argument is a product in 32 bits.
    function Pause(): nat { ((delay * 1000) % U32) / 1000 }

    // Every wait so far moved the clock on.
    ghost predicate Spaced()
      reads `clock
    {
      Pause() >= 1 && clock < CLOCK_LIMIT - 1
    }

    /** The flat store this memory stands for. */
    ghost function Flat(): (flat: Pages)
      reads this, ram, frames, store`pages
      requires Consistent()
      ensures Sized(flat, pageSize) && flat.Keys == store.pages.Keys
    {
      var c := Snap();
      assert forall p :: p in c.Flat() ==> c.Flat()[p] == c.ViewOf(p);
      c.Flat()
    }

    /** inicializar_memoria: FRAMES = size / pageSize free frames over a zeroed buffer. */
    constructor (size: nat, pageSize: nat, policy: Policy, delay: nat, store: PageStore)
      requires 0 < pageSize < 0x8000_0000 && store.pageSize == pageSize && Sized(store.pages, pageSize)
      requires size < 0x8000_0000
      ensures Valid() && fresh(ram) && fresh(frames)
      ensures this.pageSize == pageSize && this.policy == policy && this.delay == delay && this.store == store
      ensures ram.Length == size && forall k :: 0 <= k < size ==> ram[k] == 0
      ensures frames.Length == size / pageSize
      ensures forall i :: 0 <= i < frames.Length ==> frames[i].free && bases[i] == i * pageSize
      ensures Flat() == store.pages
      ensures clock == 0 && history == [] && misses == 0 && strict
    {
      hide Mirrors, Cache.Flat;
      this.pageSize := pageSize;
      this.policy := policy;
      this.delay := delay;
      this.store := store;
      DivMod(size, pageSize);
      MulMonotone(1, pageSize, size / pageSize);
      ram := new Byte[size](_ => 0);
      frames := new Frame[size / pageSize](_ => Frame(true, 0, None, 0, false, 0, 0, 0));
      bases := seq(size / pageSize, (i: nat) => i * pageSize);
      hand := 0;
      clock := 0;
      history := [];
      misses := 0;
      strict := true;
      new;
      for i := 0 to frames.Length
        modifies frames
        invariant forall j :: 0 <= j < i ==> frames[j] == Frame(true, j * pageSize, None, 0, false, 0, 0, 0)
      {
        frames[i] := Frame(true, i * pageSize, None, 0, false, 0, 0, 0);
      }
      ghost var fs := frames[..];
      InitialLayout(fs, size, pageSize);
      InitialCache(Snap());
      InitialMirror(fs);
    }

    // ---------- time ----------

    /** milisegundos_actual: the clock never goes back. */
    method Now() returns (t: nat)
      requires clock < CLOCK_LIMIT
      modifies this`clock
      ensures old(clock) <= clock == t < CLOCK_LIMIT
    {
      t :| clock <= t < CLOCK_LIMIT;
      clock := t;
    }

    /** aplicar_retardo_memoria: time passes, at least the pause, until the clock can count no further. */
    method Wait()
      requires Consistent()
      modifies this`clock
      ensures Consistent() && Flat() == old(Flat())
      ensures old(clock) <= clock && (clock < CLOCK_LIMIT - 1 ==> old(clock) + Pause() <= clock)
    {
      ghost var c := Snap();
      var until := if clock + Pause() < CLOCK_LIMIT then clock + Pause() else CLOCK_LIMIT - 1;
      var now :| until <= now < CLOCK_LIMIT;
      clock := now;
      assert Snap() == c;
    }

    // ---------- victims ----------

    /** buscar_marco_libre */
    method FindFree() returns (r: int)
      ensures -1 <= r < frames.Length
      ensures r >= 0 ==> frames[r].free && forall j :: 0 <= j < r ==> !frames[j].free
      ensures r < 0 ==> forall j :: 0 <= j < frames.Length ==> !frames[j].free
    {
      for i := 0 to frames.Length
        invariant forall j :: 0 <= j < i ==> !frames[j].free
      {
        if frames[i].free { return i; }
      }
      r := -1;
    }

    /** algoritmo_LRU */
    method LruVictim() returns (victim: int)
      requires forall i :: 0 <= i < frames.Length ==> frames[i].lastUsed < CLOCK_LIMIT
      ensures LruSpec(frames[..], victim)
    {
      victim := -1;
      var worst := U64 - 1;
      for i := 0 to frames.Length
        invariant -1 <= victim < i
        invariant victim < 0 ==> worst == U64 - 1 && forall j :: 0 <= j < i ==> frames[j].free
        invariant victim >= 0 ==> !frames[victim].free && worst == frames[victim].lastUsed
        invariant victim >= 0 ==> forall j :: 0 <= j < i && !frames[j].free ==> worst <= frames[j].lastUsed
        invariant victim >= 0 ==> forall j :: 0 <= j < victim && !frames[j].free ==> worst < frames[j].lastUsed
      {
        if !frames[i].free && frames[i].lastUsed < worst {
          worst := frames[i].lastUsed;
          victim := i;
        }
      }
    }

    // A pass of CLOCK-M that only looks: the first frame of class (0,0), or -1.
    method CleanPass() returns (victim: int)
      requires frames.Length > 0 ==> hand < frames.Length
      ensures var n, fs := frames.Length, frames[..];
              if victim < 0 then victim == -1 && !Any(fs, Clean)
              else victim < n && FirstAt(fs, hand, Distance(hand, victim, n), Clean)
    {
      var n := frames.Length;
      for k := 0 to n
        invariant n > 0 ==> forall j: nat :: j < k ==> !Clean(frames[..][At(hand, j, n)])
      {
        AtIsModulo(hand, k, n);
        var i := (hand + k) % n;
        if !frames[i].free && frames[i].u == 0 && frames[i].m == 0 {
          assert Clean(frames[..][i]) && Distance(hand, i, n) == k;
          return i;
        }
      }
      NoneAround(frames[..], hand, Clean);
      victim := -1;
    }

    // The second pass: the first frame of class (0,1), clearing the use bits met on the way.
    method ModifiedPass() returns (victim: int)
      requires frames.Length > 0 ==> hand < frames.Length
      requires forall i :: 0 <= i < frames.Length ==> frames[i].u <= 1 && frames[i].m <= 1
      modifies frames
      ensures var n, fs := frames.Length, old(frames[..]);
              if victim < 0 then victim == -1 && !Any(fs, Modified) && (n > 0 ==> ClearedBefore(fs, frames[..], hand, n))
              else victim < n && FirstAt(fs, hand, Distance(hand, victim, n), Modified)
                   && ClearedBefore(fs, frames[..], hand, Distance(hand, victim, n))
    {
      var n := frames.Length;
      ghost var fs := frames[..];
      if n > 0 { NoneCleared(fs, hand); }
      hide ClearedBefore;
      for k := 0 to n
        invariant n > 0 ==> ClearedBefore(fs, frames[..], hand, k)
        invariant n > 0 ==> forall j: nat :: j < k ==> !Modified(fs[At(hand, j, n)])
      {
        AtIsModulo(hand, k, n);
        var i := (hand + k) % n;
        assert Distance(hand, i, n) == k;
        NotYetCleared(fs, frames[..], hand, k);
        assert frames[..][i] == fs[i];
        if !frames[i].free {
          if frames[i].u == 0 && frames[i].m == 1 {
            assert Modified(fs[i]);
            return i;
          }
          if frames[i].u == 1 {
            frames[i] := frames[i].(u := 0);
          }
        }
        ClearedOneMore(fs, frames[..], hand, k);
      }
      NoneAround(fs, hand, Modified);
      victim := -1;
    }

    // The third pass: the first occupied frame, or -1.
    method OccupiedPass() returns (victim: int)
      requires frames.Length > 0 ==> hand < frames.Length
      ensures var n, fs := frames.Length, frames[..];
              if victim < 0 then victim == -1 && !Any(fs, Occupied)
              else victim < n && FirstAt(fs, hand, Distance(hand, victim, n), Occupied)
    {
      var n := frames.Length;
      for k := 0 to n
        invariant n > 0 ==> forall j: nat :: j < k ==> !Occupied(frames[..][At(hand, j, n)])
      {
        AtIsModulo(hand, k, n);
        var i := (hand + k) % n;
        if !frames[i].free {
          assert Occupied(frames[..][i]) && Distance(hand, i, n) == k;
          return i;
        }
      }
      NoneAround(frames[..], hand, Occupied);
      victim := -1;
    }

    /** algoritmo_CLOCKM: three passes around the circle. */
    method ClockVictim() returns (victim: int)
      requires frames.Length > 0 ==> hand < frames.Length
      requires forall i :: 0 <= i < frames.Length ==> frames[i].u <= 1 && frames[i].m <= 1
      modifies this`hand, frames
      ensures ClockSpec(old(frames[..]), old(hand), victim, frames[..], hand)
    {
      ghost var fs := frames[..];
      ghost var h := hand;
      victim := CleanPass();
      if victim < 0 {
        victim := ModifiedPass();
        if victim < 0 {
          ghost var gs := frames[..];
          victim := OccupiedPass();
          SameOccupied(fs, gs, h, victim);
        }
      }
      if victim >= 0 {
        FirstIsAny(fs, h, victim);
        SuccIsModulo(victim, frames.Length);
        hand := (victim + 1) % frames.Length;
      }
    }

    /** elegir_algoritmo */
    method ChooseVictim() returns (victim: int)
      requires frames.Length > 0 ==> hand < frames.Length
      requires forall i :: 0 <= i < frames.Length ==> frames[i].u <= 1 && frames[i].m <= 1 && frames[i].lastUsed < CLOCK_LIMIT
      modifies this`hand, frames
      ensures Chooses(policy, old(frames[..]), old(hand), victim, frames[..], hand)
    {
      if policy == LRU {
        victim := LruVictim();
      } else {
        victim := ClockVictim();
      }
    }

    // ---------- write-back and faults ----------

    // The bytes of frame i in the RAM buffer.
    method FrameBytes(i: nat) returns (bytes: Page)
      requires Consistent() && i < frames.Length
      ensures bytes == Snap().Bytes(i) && |bytes| == pageSize
    {
      bytes := ram[frames[i].base..frames[i].base + pageSize];
      assert frames[..][i] == frames[i] && ram[..][frames[i].base..frames[i].base + pageSize] == bytes;
    }

    /** flush_frame: a dirty frame goes to Storage and becomes clean; a refusal leaves it dirty.
        Readers see the same bytes either way. */
    method FlushFrame(i: nat) returns (rc: int)
      requires Consistent() && i < frames.Length
      modifies frames, store
      ensures Consistent() && Flat() == old(Flat())
      ensures rc == 0 || rc == -1
      ensures rc == 0 ==> frames[..] == old(frames[..])[i := old(frames[i]).(dirty := false, m := 0)]
      ensures rc != 0 ==> frames[..] == old(frames[..]) && frames[i].dirty
      ensures WrittenOnly(old(store.pages), store.pages, Flat(), old(frames[i]))
      ensures rc == 0 ==> UpToDate(store.pages, Flat(), old(frames[i]))
      ensures store.refused == old(store.refused) + if rc == 0 then 0 else 1
    {
      hide Cache.Flat, WrittenOnly, UpToDate, Sized;
      ghost var c := Snap();
      assert c.FrameOk(i) && c.frames[i] == frames[i];
      NothingWritten(c, c.frames[i]);
      rc := 0;
      if !frames[i].free && frames[i].dirty {
        var key := Key(frames[i]);
        LookupUnique(c.frames, i, key);
        WriteBack(c, i, false);
        WriteBack(c, i, true);
        WritesOnly(c, i);
        var bytes := FrameBytes(i);
        var ok := store.WriteBlock(key, bytes);
        assert Snap() == c || Snap() == WrittenBack(c, i, false);
        if !ok {
          return -1;
        }
        frames[i] := frames[i].(dirty := false, m := 0);
        assert Snap() == WrittenBack(c, i, true);
      } else {
        CleanUpToDate(c, i);
        assert frames[..] == c.frames[i := c.frames[i].(dirty := false, m := 0)];
      }
    }

    // U = 1 and last_used = now.
    method TouchFrame(i: nat)
      requires Consistent() && i < frames.Length
      modifies this`clock, frames
      ensures Consistent() && Flat() == old(Flat())
      ensures old(clock) <= clock == frames[i].lastUsed
      ensures frames[..] == old(frames[..])[i := old(frames[i]).(u := 1, lastUsed := clock)]
    {
      ghost var c := Snap();
      var now := Now();
      frames[i] := frames[i].(u := 1, lastUsed := now);
      assert Snap() == c.(frames := c.frames[i := c.frames[i].(u := 1, lastUsed := now)]);
      Retouch(c, Snap());
    }

    // The faulting half of traer_pagina: choose a victim, write it back if dirty, drop its name.
    method Evict() returns (r: int, ghost chosen: seq<Frame>)
      requires Consistent() && forall i :: 0 <= i < frames.Length ==> !frames[i].free
      modifies this`hand, frames, store
      ensures Consistent() && Flat() == old(Flat())
      ensures -1 <= r < frames.Length
      ensures r >= 0 ==> Chooses(policy, old(frames[..]), old(hand), r, chosen, hand)
      ensures |chosen| == frames.Length && forall j :: 0 <= j < |chosen| ==> chosen[j] == old(frames[..])[j].(u := chosen[j].u)
      ensures r >= 0 && policy.ClockM? ==> chosen[r].u == 0
      ensures r >= 0 ==> frames[..] == chosen[r := Nameless(chosen[r])]
      ensures r < 0 ==> exists v :: FetchFailed(policy, old(frames[..]), old(hand), frames[..], hand, v)
      ensures store.refused == old(store.refused) + Refusals(r >= 0)
    {
      hide Sized, Chooses, FetchFailed, Cache.Valid, Cache.Flat;
      ghost var c := Snap();
      BitsOk(c);
      assert forall i :: 0 <= i < frames.Length ==> c.frames[i] == frames[i] && !c.frames[i].free;
      r := ChooseVictim();
      chosen := frames[..];
      ChoosesOnlyUse(policy, c.frames, old(hand), r, chosen, hand);
      assert Snap() == c.(frames := chosen);
      Retouch(c, Snap());
      if c.frames != [] { SomeVictim(policy, c.frames, old(hand), chosen, hand, r); }
      if r >= 0 {
        var released := Release(r);
        if !released {
          VictimKept(policy, c.frames, old(hand), chosen, hand, r);
          r := -1;
        }
      } else {
        NoFrame(policy, c.frames, old(hand), chosen, hand, r);
      }
    }

    // Write frame i back if it is dirty, then take its name away.
    method Release(i: nat) returns (ok: bool)
      requires Consistent() && i < frames.Length
      modifies frames, store
      ensures Consistent() && Flat() == old(Flat())
      ensures frames[..] == if ok then old(frames[..])[i := Nameless(old(frames[i]))] else old(frames[..])
      ensures store.refused == old(store.refused) + if ok then 0 else 1
    {
      var rc := FlushFrame(i);
      if rc != 0 { return false; }
      DropName(i);
      ok := true;
    }

    method DropName(i: nat)
      requires Consistent() && i < frames.Length && !frames[i].dirty
      modifies frames
      ensures Consistent() && Flat() == old(Flat())
      ensures frames[..] == old(frames[..])[i := old(frames[i]).(name := None)]
    {
      ghost var c := Snap();
      Forget(c, i);
      frames[i] := frames[i].(name := None);
      assert Snap() == c.(frames := c.frames[i := c.frames[i].(name := None)]);
    }

    // The loading half of traer_pagina, into a frame that names no page.
    method LoadFrame(i: nat, p: PageId) returns (r: int)
      requires Consistent() && i < frames.Length && !Named(frames[i]) && Lookup(frames[..], p) < 0
      modifies this`clock, ram, frames, store`refused
      ensures Consistent() && Flat() == old(Flat())
      ensures r == i || r == -1
      ensures store.refused == old(store.refused) + if r >= 0 then 0 else 1
      ensures r < 0 ==> frames[..] == old(frames[..])
      ensures r >= 0 ==> p in store.pages && frames[..] == old(frames[..])[i := Loaded(old(frames[i]), p, frames[i].lastUsed)]
      ensures old(clock) <= clock
    {
      hide Cache.Flat, Cache.FrameOk, Unique, Splice, Lookup;
      ghost var c := Snap();
      assert c.frames[i] == frames[i];
      var ok, received := store.ReadBlock(p);
      CopyInto(ram, frames[i].base, received);
      if !ok {
        Scribble(c, i, received);
        assert Snap() == c.(ram := Splice(c.ram, c.frames[i].base, received));
        return -1;
      }
      var now := Now();
      Load(c, i, p, now);
      frames[i] := Loaded(frames[i], p, now);
      assert Snap() == c.(ram := Splice(c.ram, c.frames[i].base, received), frames := c.frames[i := Loaded(c.frames[i], p, now)]);
      r := i;
    }

    // The scan with frame_matchea that opens traer_pagina.
    method FindResident(p: PageId) returns (r: int)
      ensures r == Lookup(frames[..], p)
    {
      for i := 0 to frames.Length
        invariant forall j :: 0 <= j < i ==> !Matches(frames[j], p)
      {
        if Matches(frames[i], p) {
          FirstMatch(frames[..], i, p);
          return i;
        }
      }
      r := -1;
    }

    /** traer_pagina: the frame now holding page p, or -1. Whatever happens, readers see the same bytes. */
    method FetchPage(p: PageId) returns (r: int)
      requires Consistent()
      modifies this`hand, this`clock, ram, frames, store
      ensures Consistent() && Flat() == old(Flat())
      ensures old(clock) <= clock
      ensures -1 <= r < frames.Length
      ensures r >= 0 ==> Matches(frames[r], p) && p in store.pages
      ensures r >= 0 ==> Fetched(policy, old(frames[..]), old(hand), frames[..], hand, p, r)
      ensures r < 0 ==> exists v :: FetchFailed(policy, old(frames[..]), old(hand), frames[..], hand, v)
      ensures store.refused == old(store.refused) + Refusals(r >= 0)
      ensures Lookup(old(frames[..]), p) >= 0 ==> r >= 0 && store.pages == old(store.pages)
    {
      hide Cache.Flat, Fetched, FetchFailed;
      ghost var fs := frames[..];
      r := FindResident(p);
      if r >= 0 {
        Hit(Snap(), r, p);
        TouchFrame(r);
        FetchedByHit(policy, fs, hand, frames[..], p);
      } else {
        r := Fault(p);
      }
    }

    // traer_pagina after a miss.
    method Fault(p: PageId) returns (r: int)
      requires Consistent() && Lookup(frames[..], p) < 0
      modifies this`hand, this`clock, ram, frames, store
      ensures Consistent() && Flat() == old(Flat())
      ensures old(clock) <= clock
      ensures -1 <= r < frames.Length
      ensures r >= 0 ==> Matches(frames[r], p) && p in store.pages && Fetched(policy, old(frames[..]), old(hand), frames[..], hand, p, r)
      ensures r < 0 ==> exists v :: FetchFailed(policy, old(frames[..]), old(hand), frames[..], hand, v)
      ensures store.refused == old(store.refused) + Refusals(r >= 0)
    {
      hide Cache.Valid, Cache.Flat, Fetched, FetchFailed, Chooses, Sized, Lookup, Splice;
      ghost var fs := frames[..];
      var i, chosen := ObtainFrame();
      if i < 0 { return -1; }
      ghost var gs := frames[..];
      StillAbsent(fs, gs, p);
      r := LoadFrame(i, p);
      if r < 0 {
        NotLoaded(policy, fs, old(hand), i, chosen, hand, gs);
      } else {
        FetchedByLoad(policy, fs, old(hand), chosen, hand, i, frames[..], p);
      }
    }

    // A frame for a page that is not resident: a free one, else the victim's.
    method ObtainFrame() returns (i: int, ghost chosen: seq<Frame>)
      requires Consistent()
      modifies this`hand, frames, store
      ensures Consistent() && Flat() == old(Flat())
      ensures -1 <= i < frames.Length
      ensures i >= 0 ==> Obtained(policy, old(frames[..]), old(hand), i, chosen, hand, frames[..])
      ensures i < 0 ==> exists v :: FetchFailed(policy, old(frames[..]), old(hand), frames[..], hand, v)
      ensures store.refused == old(store.refused) + Refusals(i >= 0)
    {
      chosen := frames[..];
      ghost var fs := frames[..];
      i := FindFree();
      if i >= 0 {
        assert IsFree(fs[i]);
      } else {
        assert !Any(fs, IsFree);
        i, chosen := Evict();
      }
    }

    // ---------- byte access ----------

    // Write into the resident frame of page p.
    method StoreBytes(i: nat, p: PageId, off: nat, data: seq<Byte>)
      requires Consistent() && i < frames.Length && Matches(frames[i], p) && off + |data| <= pageSize
      modifies ram, frames
      ensures Consistent() && Flat() == SpliceIn(old(Flat()), p, off, data)
      ensures frames[..] == old(frames[..])[i := old(frames[i]).(dirty := true, m := 1)]
    {
      hide Cache.Flat, Cache.FrameOk, SpliceIn;
      ghost var c := Snap();
      assert c.frames[i] == frames[i];
      StoreSplices(c, i, p, off, data);
      CopyInto(ram, frames[i].base + off, data);
      frames[i] := frames[i].(dirty := true, m := 1);
      assert Snap() == Stored(c, i, off, data);
    }

    // Read from the resident frame of page p.
    method LoadBytes(i: nat, p: PageId, off: nat, n: nat, output: array<Byte>, at: nat)
      requires Consistent() && i < frames.Length && Matches(frames[i], p) && p in Flat()
      requires off + n <= pageSize && output != ram && at + n <= output.Length
      modifies output
      ensures Consistent() && Flat() == old(Flat()) && frames[..] == old(frames[..])
      ensures output[..] == Splice(old(output[..]), at, Flat()[p][off..off + n])
    {
      ghost var c := Snap();
      LookupUnique(c.frames, i, p);
      assert c.Flat()[p] == c.Bytes(i);
      hide Cache.Flat, Cache.Valid, Cache.Bytes;
      var page := FrameBytes(i);
      CopyInto(output, at, page[off..off + n]);
      assert Snap() == c;
    }

    // Copy n bytes between the caller's buffer and resident frame i, then mark the frame as used.
    method UseFrame(i: nat, p: PageId, off: nat, n: nat, write: bool, input: seq<Byte>, output: array<Byte>, at: nat)
      requires Consistent() && i < frames.Length && Matches(frames[i], p) && p in Flat()
      requires off + n <= pageSize && output != ram
      requires if write then |input| == n else at + n <= output.Length
      modifies this`clock, ram, frames, output
      ensures Consistent() && old(clock) <= clock == frames[i].lastUsed
      ensures Flat() == if write then SpliceIn(old(Flat()), p, off, input) else old(Flat())
      ensures output[..] == if write then old(output[..]) else Splice(old(output[..]), at, old(Flat())[p][off..off + n])
      ensures frames[..] == old(frames[..])[i := Used(old(frames[i]), write, clock)]
    {
      hide Cache.Flat, Cache.Valid, SpliceIn;
      if write {
        StoreBytes(i, p, off, input);
      } else {
        LoadBytes(i, p, off, n, output, at);
      }
      TouchFrame(i);
    }

    /** One turn of acceder_memoria's loop: bring the page in, wait, copy n bytes, mark the frame.
        Under LRU, as long as every access succeeds and every wait moves the clock on, the frame table
        keeps mirroring the recency stack. */
    method AccessPage(p: PageId, off: nat, n: nat, write: bool, input: seq<Byte>, output: array<Byte>, at: nat) returns (ok: bool)
      requires Valid() && off + n <= pageSize && output != ram
      requires if write then |input| == n else at + n <= output.Length
      modifies this`hand, this`clock, this`history, this`misses, this`strict, ram, frames, store, output
      ensures Valid() && old(clock) <= clock
      ensures ok ==> p in old(Flat())
      ensures ok && write ==> Flat() == SpliceIn(old(Flat()), p, off, input)
      ensures ok && !write ==> Flat() == old(Flat()) && output[..] == Splice(old(output[..]), at, old(Flat())[p][off..off + n])
      ensures !ok ==> Flat() == old(Flat())
      ensures write || !ok ==> output[..] == old(output[..])
      ensures history == if ok then old(history) + [p] else old(history)
      ensures ok && old(strict) && Spaced() ==> strict
      ensures store.refused == old(store.refused) + Refusals(ok)
      ensures if ok then Turned(policy, old(frames[..]), old(hand), frames[..], hand, p, write, clock)
              else exists v :: FetchFailed(policy, old(frames[..]), old(hand), frames[..], hand, v)
      ensures ok ==> var r := Lookup(frames[..], p);
                     r >= 0 && frames[r].u == 1 && frames[r].lastUsed == clock && (write ==> frames[r].dirty && frames[r].m == 1)
      ensures policy.ClockM? ==> KeepsUsed(old(frames[..]), frames[..])
    {
      hide Cache.Flat, Cache.Valid, Chooses, Fetched, FetchFailed, Turned, KeepsUsed, Mirrors, SpliceIn, Sized;
      hide Lookup, Splice, Refusals, Stack, Misses, Unique;
      ghost var fs, h := frames[..], hand;
      BitsOk(Snap());
      assert forall i :: 0 <= i < |fs| ==> fs[i] == frames[i];
      var r := FetchPage(p);
      if r < 0 {
        strict := false;
        NamesUnique(Snap());
        if policy.ClockM? { SecondChance(fs, h, frames[..], hand, p, write, clock); }
        return false;
      }
      UseFetched(r, p, off, n, write, input, output, at, fs, h);
      ok := true;
      NamesUnique(Snap());
      TurnMarks(policy, fs, h, frames[..], hand, p, write, clock);
      if policy.ClockM? { SecondChance(fs, h, frames[..], hand, p, write, clock); }
    }

    // The turn after traer_pagina found frame r; fs and h are the frame table and the hand before it.
    method UseFetched(r: nat, p: PageId, off: nat, n: nat, write: bool, input: seq<Byte>, output: array<Byte>, at: nat,
                      ghost fs: seq<Frame>, ghost h: nat)
      requires Consistent() && r < frames.Length && Matches(frames[r], p) && p in Flat() && off + n <= pageSize && output != ram
      requires if write then |input| == n else at + n <= output.Length
      requires |fs| == frames.Length && h < |fs| && forall i :: 0 <= i < |fs| ==> fs[i].u <= 1 && fs[i].m <= 1 && fs[i].lastUsed <= clock
      requires Fetched(policy, fs, h, frames[..], hand, p, r)
      requires policy.LRU? && strict ==> Mirrors(fs, Stack(history)) && misses == Misses(history, |fs|)
      modifies this`clock, this`history, this`misses, this`strict, ram, frames, output
      ensures Valid() && old(clock) <= clock
      ensures Flat() == if write then SpliceIn(old(Flat()), p, off, input) else old(Flat())
      ensures output[..] == if write then old(output[..]) else Splice(old(output[..]), at, old(Flat())[p][off..off + n])
      ensures history == old(history) + [p] && (old(strict) && Spaced() ==> strict)
      ensures Turned(policy, fs, h, frames[..], hand, p, write, clock)
    {
      hide Cache.Flat, Cache.Valid, Chooses, Fetched, Mirrors, SpliceIn, Sized;
      ghost var ms := frames[..];
      FetchedKeepsTimes(policy, fs, h, ms, hand, p, r);
      Wait();
      UseFrame(r, p, off, n, write, input, output, at);
      Recorded(fs, h, ms, hand, p, r);
      assert frames[..] == ms[r := Used(ms[r], write, clock)];
    }

    /** acceder_memoria. A read returns exactly the flat store's bytes and changes nothing; a write
        changes exactly the requested bytes. When a page cannot be brought in, a prefix of `done` bytes
        was read or written. */
    method AccessMemory(ft: FileTag, base: nat, size: nat, write: bool, input: seq<Byte>, output: array<Byte>)
      returns (rc: int, done: nat)
      requires Valid() && base < U64 && size < U64 && output != ram
      requires if write then |input| == size else size <= output.Length
      modifies this`hand, this`clock, this`history, this`misses, this`strict, ram, frames, store, output
      ensures Valid() && old(clock) <= clock
      ensures done <= size && rc == if done == size then 0 else -1
      ensures write ==> Flat() == WriteFlat(old(Flat()), pageSize, ft, base, input, done) && output[..] == old(output[..])
      ensures !write ==> Flat() == old(Flat()) && ReadFlat(Flat(), pageSize, ft, base, output[..], done)
      ensures !write ==> output[done..] == old(output[done..])
      ensures Mapped(old(Flat()), pageSize, ft, base, done)
      ensures history == old(history) + Turns(pageSize, ft, base, done)
      ensures rc == 0 && old(strict) && Spaced() ==> strict
      ensures store.refused == old(store.refused) + Refusals(rc == 0)
      ensures Accessed(policy, old(frames[..]), old(hand), frames[..], hand, Turns(pageSize, ft, base, done), write, rc == 0)
    {
      hide Cache.Flat, WriteFlat, ReadFlat, Turns, AtTurn, Mapped, LruState, Turned, Walked, FetchFailed;
      assert 0 < pageSize && (frames.Length > 0 ==> hand < frames.Length);
      hide Consistent;
      ghost var flat := Flat();
      ghost var out0 := output[..];
      ghost var fs, h := frames[..], hand;

      var rest: nat, shift: nat := size, 0;
      NothingAccessed(flat, pageSize, ft, base, input, out0);
      NothingWalked(policy, fs, h, write);
      while rest > 0
        invariant shift + rest == size
        invariant Valid() && old(clock) <= clock
        invariant Progress(flat, pageSize, ft, base, write, input, out0, shift, Flat(), output[..])
        invariant rest > 0 ==> AtTurn(pageSize, base, shift)
        invariant history == old(history) + Turns(pageSize, ft, base, shift)
        invariant old(strict) && Spaced() ==> strict
        invariant store.refused == old(store.refused)
        invariant Walked(policy, fs, h, frames[..], hand, Turns(pageSize, ft, base, shift), write)
      {
        var chunk := AccessChunk(ft, base, shift, rest, write, input, output, flat, out0, old(history), fs, h);
        if chunk == 0 {
          return -1, shift;
        }
        shift := shift + chunk;
        rest := rest - chunk;
      }
      rc, done := 0, size;
    }

    // The part of a request that lies in one page; 0 when that page cannot be brought in.
    method AccessChunk(ft: FileTag, base: nat, shift: nat, rest: nat, write: bool, input: seq<Byte>, output: array<Byte>,
                       ghost flat: Pages, ghost out0: seq<Byte>, ghost before: seq<PageId>,
                       ghost fs: seq<Frame>, ghost h: nat) returns (chunk: nat)
      requires Valid() && rest > 0 && output != ram && Sized(flat, pageSize)
      requires if write then |input| == shift + rest else shift + rest <= output.Length
      requires Progress(flat, pageSize, ft, base, write, input, out0, shift, Flat(), output[..])
      requires AtTurn(pageSize, base, shift) && history == before + Turns(pageSize, ft, base, shift)
      requires (|fs| > 0 ==> h < |fs|) && Walked(policy, fs, h, frames[..], hand, Turns(pageSize, ft, base, shift), write)
      modifies this`hand, this`clock, this`history, this`misses, this`strict, ram, frames, store, output
      ensures Valid() && old(clock) <= clock && chunk <= rest
      ensures Progress(flat, pageSize, ft, base, write, input, out0, shift + chunk, Flat(), output[..])
      ensures chunk < rest ==> chunk == 0 || AtTurn(pageSize, base, shift + chunk)
      ensures history == before + Turns(pageSize, ft, base, shift + chunk)
      ensures chunk > 0 && old(strict) && Spaced() ==> strict
      ensures store.refused == old(store.refused) + Refusals(chunk > 0)
      ensures Accessed(policy, fs, h, frames[..], hand, Turns(pageSize, ft, base, shift + chunk), write, chunk > 0)
    {
      hide Cache.Flat, WriteFlat, ReadFlat, ByteAt, SpliceIn, Locate, Start, PageOf, Mapped, Turns, StartsTurn, LruState;
      hide Turned, Walked, Accessed, FetchFailed, KeepsUsed, Lookup, Snap, Spaced, Splice, Progress, Refusals, Sized;
      assert 0 < pageSize && (frames.Length > 0 ==> hand < frames.Length);
      hide Consistent;
      ghost var ms, k := frames[..], hand;
      var at := Start(pageSize, (base + shift) % U64);
      chunk := pageSize - at.off;
      if chunk > rest { chunk := rest; }
      ghost var now, out := Flat(), output[..];
      var ok := AccessPage(PageOf(ft, at), at.off, chunk, write, if write then input[shift..shift + chunk] else [], output, shift);
      if !ok {
        BrokenOff(policy, fs, h, ms, k, frames[..], hand, Turns(pageSize, ft, base, shift), write);
        return 0;
      }
      WalkedOn(policy, fs, h, ms, k, frames[..], hand, Turns(pageSize, ft, base, shift), PageOf(ft, at), write, clock);
      ProgressStep(flat, pageSize, ft, base, write, input, out0, shift, shift + chunk, now, out, Flat(), output[..]);
      ChunkEnds(pageSize, ft, base, shift, rest, chunk);
    }

    // The history after a successful access to p through frame r.
    ghost method Recorded(fs: seq<Frame>, h: nat, ms: seq<Frame>, h': nat, p: PageId, r: nat)
      requires Consistent() && |fs| == |ms| == frames.Length && h < |fs| && r < |fs|
      requires Fetched(policy, fs, h, ms, h', p, r)
      requires policy.LRU? && strict ==> Mirrors(fs, Stack(history)) && misses == Misses(history, |fs|)
      requires SamePages(ms, frames[..]) && forall i :: 0 <= i < |ms| && i != r ==> frames[i].lastUsed == ms[i].lastUsed
      modifies this`history, this`misses, this`strict
      ensures Valid() && history == old(history) + [p]
      ensures old(strict) && (forall i :: 0 <= i < |ms| && i != r ==> frames[i].lastUsed < frames[r].lastUsed) ==> strict
    {
      hide Cache.Valid, Fetched, Mirrors;
      ghost var gs := frames[..];
      strict := strict && forall i :: 0 <= i < |gs| && i != r && !gs[i].free ==> gs[i].lastUsed < gs[r].lastUsed;
      if policy.LRU? && strict {
        MirrorAfterAccess(fs, h, ms, h', gs, history, p, r);
      }
      if Lookup(fs, p) < 0 { misses := misses + 1; }
      history := history + [p];
    }

    // ---------- flushes ----------

    /** flush_filetag. On success Storage agrees with the flat store on the whole file:tag; whatever
        happens no other page of Storage is touched and readers see the same bytes. */
    method FlushFileTag(ft: FileTag) returns (rc: int)
      requires Valid()
      modifies frames, store
      ensures Valid() && Flat() == old(Flat())
      ensures rc == 0 || (rc == -1 && frames.Length > 0)
      ensures rc == 0 ==> forall p :: p in store.pages && p.ft == ft ==> store.pages[p] == Flat()[p]
      ensures rc == 0 ==> forall i :: 0 <= i < frames.Length && frames[i].name == Some(ft) ==> !frames[i].dirty
      ensures FlushedOnly(old(frames[..]), frames[..]) && PagesFlushed(old(store.pages), store.pages, Flat(), ft)
      ensures forall i :: 0 <= i < frames.Length && frames[i].name != Some(ft) ==> frames[i] == old(frames[..])[i]
      ensures store.refused == old(store.refused) + if rc == 0 then 0 else 1
    {
      hide Cache.Flat, Cache.Valid, Mirrors, FlushedOnly, PagesFlushed, WrittenOnly, UpToDate, Sized;
      ghost var fs, pages, flat := frames[..], store.pages, Flat();
      NothingFlushed(fs, pages, flat, ft);
      for i := 0 to frames.Length
        invariant Consistent() && Flat() == flat
        invariant FlushedOnly(fs, frames[..]) && PagesFlushed(pages, store.pages, flat, ft)
        invariant forall j :: 0 <= j < i && frames[j].name == Some(ft) ==> !frames[j].dirty
        invariant forall j :: 0 <= j < frames.Length && frames[j].name != Some(ft) ==> frames[j] == fs[j]
        invariant store.refused == old(store.refused)
      {
        if !frames[i].free && frames[i].name == Some(ft) && frames[i].dirty {
          ghost var gs, mid := frames[..], store.pages;
          var one := FlushFrame(i);
          FlushedStep(fs, gs, frames[..], i);
          PagesFlushedStep(pages, mid, store.pages, flat, ft, gs[i]);
          if one != 0 {
            FlushedMirror(fs, frames[..], Stack(history));
            return -1;
          }
        } else {
          DirtyIsNamed(Snap(), i);
        }
      }
      FlushedMirror(fs, frames[..], Stack(history));
      CleanFileTag(Snap(), ft);
      rc := 0;
    }

    /** flush_todos_filetags_modificados. On success no frame is dirty and Storage is the flat store. */
    method FlushAllModified() returns (rc: int)
      requires Valid()
      modifies frames, store
      ensures Valid() && Flat() == old(Flat())
      ensures rc == 0 || (rc == -1 && frames.Length > 0)
      ensures rc == 0 ==> store.pages == Flat() && forall i :: 0 <= i < frames.Length ==> !frames[i].dirty
      ensures FlushedOnly(old(frames[..]), frames[..])
      ensures store.refused == old(store.refused) + if rc == 0 then 0 else 1
    {
      hide Cache.Flat, Mirrors, PagesFlushed;
      ghost var fs, flat := frames[..], Flat();
      for i := 0 to frames.Length
        invariant Valid() && Flat() == flat
        invariant FlushedOnly(fs, frames[..])
        invariant forall j :: 0 <= j < i ==> !frames[j].dirty
        invariant store.refused == old(store.refused)
      {
        if !frames[i].free && frames[i].name.Some? && frames[i].dirty {
          ghost var gs := frames[..];
          var one := FlushFileTag(frames[i].name.value);
          assert forall j :: 0 <= j < frames.Length ==> frames[j] == frames[..][j] && (gs[j].dirty || !frames[j].dirty);
          FlushedTwice(fs, gs, frames[..]);
          if one != 0 { return -1; }
        } else {
          DirtyIsNamed(Snap(), i);
        }
      }
      CleanEverywhere(Snap());
      rc := 0;
    }
  }

  /** LRU stack theorem: as long as accesses succeed and end at increasing times, the resident pages
      are exactly the n most recently used distinct ones, and the misses so far are those of the
      history alone. */
  lemma ResidentAreMostRecent(m: Memory, p: PageId)
    requires m.Valid() && m.policy.LRU? && m.strict && m.frames.Length > 0
    ensures Lookup(m.frames[..], p) >= 0 <==> p in Top(Stack(m.history), m.frames.Length)
    ensures m.misses == Misses(m.history, m.frames.Length)
  {
    ResidentIsTop(m.frames[..], Stack(m.history), p);
  }

  /** Of two LRU memories with the same history, the one with more frames holds every page the other
      holds and has missed no more often. */
  lemma MoreFramesNeverHurt(m: Memory, k: Memory, p: PageId)
    requires m.Valid() && m.policy.LRU? && m.strict && k.Valid() && k.policy.LRU? && k.strict
    requires 0 < m.frames.Length <= k.frames.Length && m.history == k.history
    ensures Lookup(m.frames[..], p) >= 0 ==> Lookup(k.frames[..], p) >= 0
    ensures k.misses <= m.misses
  {
    if Lookup(m.frames[..], p) >= 0 {
      Inclusion(m.frames[..], k.frames[..], Stack(m.history), p);
    }
    MissesNeverRise(m.history, m.frames.Length, k.frames.Length);
  }

  // Some dirty frames became clean; nothing else changed.
  ghost predicate FlushedOnly(fs: seq<Frame>, gs: seq<Frame>) {
    && |gs| == |fs|
    && forall i :: 0 <= i < |fs| ==> gs[i] == fs[i] || gs[i] == fs[i].(dirty := false, m := 0)
  }

  // Storage changed only in pages of ft, and there only to what readers see.
  ghost predicate PagesFlushed(before: Pages, after: Pages, flat: Pages, ft: FileTag) {
    && after.Keys == before.Keys && flat.Keys == before.Keys
    && forall p :: p in before ==> after[p] == before[p] || (p.ft == ft && after[p] == flat[p])
  }

  lemma NothingFlushed(fs: seq<Frame>, pages: Pages, flat: Pages, ft: FileTag)
    requires flat.Keys == pages.Keys
    ensures FlushedOnly(fs, fs) && PagesFlushed(pages, pages, flat, ft)
  {
  }

  lemma FlushedStep(fs: seq<Frame>, gs: seq<Frame>, ks: seq<Frame>, i: nat)
    requires FlushedOnly(fs, gs) && i < |fs|
    requires ks == gs || ks == gs[i := gs[i].(dirty := false, m := 0)]
    ensures FlushedOnly(fs, ks)
  {
  }

  lemma FlushedTwice(fs: seq<Frame>, gs: seq<Frame>, ks: seq<Frame>)
    requires FlushedOnly(fs, gs) && FlushedOnly(gs, ks)
    ensures FlushedOnly(fs, ks)
  {
  }

  lemma PagesFlushedStep(before: Pages, mid: Pages, after: Pages, flat: Pages, ft: FileTag, f: Frame)
    requires PagesFlushed(before, mid, flat, ft) && WrittenOnly(mid, after, flat, f) && f.name == Some(ft)
    ensures PagesFlushed(before, after, flat, ft)
  {
  }

  lemma NamesUnique(c: Cache)
    requires c.Valid()
    ensures Unique(c.frames)
  {
  }

  lemma DirtyIsNamed(c: Cache, i: nat)
    requires c.Valid() && i < |c.frames|
    ensures c.frames[i].dirty ==> Named(c.frames[i])
  {
    assert c.FrameOk(i);
  }

  // Flushing does not touch recency.
  lemma FlushedMirror(fs: seq<Frame>, gs: seq<Frame>, s: seq<PageId>)
    requires FlushedOnly(fs, gs)
    ensures Mirrors(fs, s) ==> Mirrors(gs, s)
  {
    if Mirrors(fs, s) {
      var w :| PlacedAt(fs, Top(s, |fs|), w);
      SameCount(fs, gs);
      FlushedPlaces(fs, gs, Top(s, |fs|), w);
    }
  }

  lemma FlushedPlaces(fs: seq<Frame>, gs: seq<Frame>, top: seq<PageId>, w: seq<nat>)
    requires FlushedOnly(fs, gs) && PlacedAt(fs, top, w)
    ensures PlacedAt(gs, top, w)
  {
  }

  // Where no frame is dirty Storage is up to date.
  lemma CleanFileTag(c: Cache, ft: FileTag)
    requires c.Valid()
    requires forall i :: 0 <= i < |c.frames| && c.frames[i].name == Some(ft) ==> !c.frames[i].dirty
    ensures forall p :: p in c.pages && p.ft == ft ==> c.pages[p] == c.Flat()[p]
  {
    forall p | p in c.pages && p.ft == ft ensures c.pages[p] == c.Flat()[p] {
      var i := Lookup(c.frames, p);
      if i >= 0 { assert c.FrameOk(i) && Key(c.frames[i]) == p; }
    }
  }

  lemma CleanEverywhere(c: Cache)
    requires c.Valid() && forall i :: 0 <= i < |c.frames| ==> !c.frames[i].dirty
    ensures c.pages == c.Flat()
  {
    forall p | p in c.pages ensures c.pages[p] == c.Flat()[p] {
      CleanFileTag(c, p.ft);
    }
  }

  lemma MirrorAfterAccess(fs: seq<Frame>, h: nat, ms: seq<Frame>, h': nat, gs: seq<Frame>, history: seq<PageId>, p: PageId, r: nat)
    requires |fs| > 0 ==> h < |fs|
    requires Mirrors(fs, Stack(history)) && Fetched(LRU, fs, h, ms, h', p, r)
    requires |gs| == |ms| && SamePages(ms, gs) && forall i :: 0 <= i < |ms| && i != r ==> gs[i].lastUsed == ms[i].lastUsed
    requires forall i :: 0 <= i < |gs| && i != r && !gs[i].free ==> gs[i].lastUsed < gs[r].lastUsed
    ensures Mirrors(gs, Stack(history + [p]))
    ensures Misses(history + [p], |fs|) == Misses(history, |fs|) + (if Lookup(fs, p) < 0 then 1 else 0)
  {
    hide Mirrors;
    assert (history + [p])[..|history|] == history;
    assert forall i :: 0 <= i < |ms| ==> SamePage(ms[i], gs[i]);
    AccessStep(fs, h, ms, h', gs, Stack(history), p, r);
    ResidentIsTop(fs, Stack(history), p);
  }

  lemma FetchedKeepsTimes(policy: Policy, fs: seq<Frame>, h: nat, gs: seq<Frame>, h': nat, p: PageId, r: nat)
    requires |fs| > 0 ==> h < |fs|
    requires forall i :: 0 <= i < |fs| ==> fs[i].u <= 1 && fs[i].m <= 1
    requires Fetched(policy, fs, h, gs, h', p, r)
    ensures |gs| == |fs| && forall i :: 0 <= i < |fs| && i != r ==> gs[i].lastUsed == fs[i].lastUsed
  {
    if Lookup(fs, p) < 0 && !Any(fs, IsFree) {
      var cs :| Chooses(policy, fs, h, r, cs, h') && gs == cs[r := Loaded(cs[r], p, gs[r].lastUsed)];
      ChoosesOnlyUse(policy, fs, h, r, cs, h');
    }
  }

  // The first n bytes of the request are done, and nothing else: `now` is the flat store, `out` the
  // output buffer.
  ghost predicate Progress(flat: Pages, ps: nat, ft: FileTag, base: nat, write: bool, input: seq<Byte>, out0: seq<Byte>,
                           n: nat, now: Pages, out: seq<Byte>)
    requires ps > 0 && Sized(flat, ps) && if write then n <= |input| else n <= |out|
  {
    && |out0| == |out|
    && Mapped(flat, ps, ft, base, n)
    && if write then now == WriteFlat(flat, ps, ft, base, input, n) && out == out0
       else now == flat && ReadFlat(flat, ps, ft, base, out, n) && out[n..] == out0[n..]
  }

  lemma ProgressStep(flat: Pages, ps: nat, ft: FileTag, base: nat, write: bool, input: seq<Byte>, out0: seq<Byte>,
                     d: nat, e: nat, now: Pages, out: seq<Byte>, after: Pages, out': seq<Byte>)
    requires ps > 0 && Sized(flat, ps) && Sized(now, ps) && d <= e && if write then e <= |input| else e <= |out|
    requires Progress(flat, ps, ft, base, write, input, out0, d, now, out)
    requires var c := Locate(ps, base, d); c.off + (e - d) <= ps && PageOf(ft, c) in now
    requires var c := Locate(ps, base, d); var p := PageOf(ft, c);
             if write then after == SpliceIn(now, p, c.off, input[d..e]) && out' == out
             else after == now && out' == Splice(out, d, now[p][c.off..c.off + (e - d)])
    ensures Progress(flat, ps, ft, base, write, input, out0, e, after, out')
  {
    hide WriteFlat, SpliceIn, ReadFlat, Mapped, Locate;
    ChunkMapped(flat, ps, ft, base, d, e);
    if write {
      ChunkWrite(flat, ps, ft, base, input, d, e);
    } else {
      ChunkRead(flat, ps, ft, base, out, d, e);
      assert out'[e..] == out[d..][e - d..] == out0[d..][e - d..] == out0[e..];
    }
  }

  // A chunk is one turn, and the next one starts a turn.
  lemma ChunkEnds(ps: nat, ft: FileTag, base: nat, shift: nat, rest: nat, chunk: nat)
    requires ps > 0 && rest > 0 && AtTurn(ps, base, shift)
    requires var at := Start(ps, (base + shift) % U64); at.off < ps && chunk == if ps - at.off > rest then rest else ps - at.off
    ensures Turns(ps, ft, base, shift + chunk) == Turns(ps, ft, base, shift) + [PageOf(ft, Start(ps, (base + shift) % U64))]
    ensures chunk < rest ==> AtTurn(ps, base, shift + chunk)
  {
    hide PageOf, Turns, StartsTurn, Locate, Start;
    ChunkTurn(ps, ft, base, shift, shift + chunk);
    if chunk < rest { LocateNextPage(ps, base, shift, shift + chunk); }
  }

  // Frame i was obtained for a new page: `chosen` is the table after victim selection, `gs` the table now.
  ghost predicate Obtained(policy: Policy, fs: seq<Frame>, h: nat, i: nat, chosen: seq<Frame>, h': nat, gs: seq<Frame>)
    requires |fs| > 0 ==> h < |fs|
  {
    && |gs| == |fs| == |chosen| && i < |fs| && !Named(gs[i])
    && (forall j :: 0 <= j < |fs| ==> chosen[j] == fs[j].(u := chosen[j].u))
    && (if Any(fs, IsFree) then
          fs[i].free && (forall j :: 0 <= j < i ==> !fs[j].free) && h' == h && chosen == fs && gs == fs
        else
          !fs[i].free && (policy.ClockM? ==> chosen[i].u == 0) && Chooses(policy, fs, h, i, chosen, h') && gs == chosen[i := Nameless(chosen[i])])
  }

  // A page that could not be read into the frame obtained for it.
  lemma NotLoaded(policy: Policy, fs: seq<Frame>, h: nat, i: nat, chosen: seq<Frame>, h': nat, gs: seq<Frame>)
    requires |fs| > 0 ==> h < |fs|
    requires Obtained(policy, fs, h, i, chosen, h', gs)
    ensures exists v :: FetchFailed(policy, fs, h, gs, h', v)
  {
    hide Chooses;
    assert FetchFailed(policy, fs, h, gs, h', if Any(fs, IsFree) then -1 else i);
  }

  lemma StoreSplices(c: Cache, i: nat, p: PageId, off: nat, data: seq<Byte>)
    requires c.Valid() && i < |c.frames| && Matches(c.frames[i], p) && off + |data| <= c.pageSize
    ensures Stored(c, i, off, data).Valid() && Stored(c, i, off, data).Flat() == SpliceIn(c.Flat(), p, off, data)
  {
    Store(c, i, p, off, data);
  }

  lemma FetchedByHit(policy: Policy, fs: seq<Frame>, h: nat, gs: seq<Frame>, p: PageId)
    requires |fs| > 0 ==> h < |fs|
    requires Lookup(fs, p) >= 0 && |gs| == |fs|
    requires var r := Lookup(fs, p); gs == fs[r := fs[r].(u := 1, lastUsed := gs[r].lastUsed)]
    ensures Fetched(policy, fs, h, gs, h, p, Lookup(fs, p))
  {
  }

  lemma FetchedByLoad(policy: Policy, fs: seq<Frame>, h: nat, chosen: seq<Frame>, h': nat, i: nat, gs: seq<Frame>, p: PageId)
    requires |fs| > 0 ==> h < |fs|
    requires Lookup(fs, p) < 0 && |gs| == |fs| == |chosen| && i < |fs|
    requires if Any(fs, IsFree) then fs[i].free && (forall j :: 0 <= j < i ==> !fs[j].free) && h' == h && chosen == fs
             else Chooses(policy, fs, h, i, chosen, h')
    requires gs == chosen[i := Loaded(chosen[i], p, gs[i].lastUsed)]
    ensures Fetched(policy, fs, h, gs, h', p, i)
  {
  }

  lemma FirstMatch(fs: seq<Frame>, i: nat, p: PageId)
    requires i < |fs| && Matches(fs[i], p) && forall j :: 0 <= j < i ==> !Matches(fs[j], p)
    ensures Lookup(fs, p) == i
  {
  }

  lemma Hit(c: Cache, i: nat, p: PageId)
    requires c.Valid() && i < |c.frames| && Matches(c.frames[i], p)
    ensures Lookup(c.frames, p) == i && p in c.pages
  {
    LookupUnique(c.frames, i, p);
    assert c.FrameOk(i);
  }

  // Losing names brings no page in.
  lemma StillAbsent(fs: seq<Frame>, gs: seq<Frame>, p: PageId)
    requires |gs| == |fs| && Lookup(fs, p) < 0
    requires forall i :: 0 <= i < |fs| ==> gs[i].free == fs[i].free && gs[i].page == fs[i].page && (gs[i].name == fs[i].name || gs[i].name == None)
    ensures Lookup(gs, p) < 0
  {
    var k := Lookup(gs, p);
    if k >= 0 { assert Matches(fs[k], p); }
  }

  lemma NoneCleared(fs: seq<Frame>, h: nat)
    requires h < |fs|
    ensures ClearedBefore(fs, fs, h, 0)
  {
  }

  lemma NotYetCleared(fs: seq<Frame>, gs: seq<Frame>, h: nat, k: nat)
    requires h < |fs| && k < |fs| && |gs| == |fs| && ClearedBefore(fs, gs, h, k)
    ensures gs[At(h, k, |fs|)] == fs[At(h, k, |fs|)]
  {
  }

  lemma ClearedOneMore(fs: seq<Frame>, gs: seq<Frame>, h: nat, k: nat)
    requires |gs| == |fs| && h < |fs| && k < |fs| && fs[At(h, k, |fs|)].u <= 1
    requires var i := At(h, k, |fs|); gs[i] == if Occupied(fs[i]) then fs[i].(u := 0) else fs[i]
    requires ClearedBefore(fs, gs[At(h, k, |fs|) := fs[At(h, k, |fs|)]], h, k)
    ensures ClearedBefore(fs, gs, h, k + 1)
  {
    var i := At(h, k, |fs|);
    var before := gs[i := fs[i]];
    forall j | 0 <= j < |fs|
      ensures gs[j] == if Occupied(fs[j]) && Distance(h, j, |fs|) < k + 1 then fs[j].(u := 0) else fs[j]
    {
      if j != i {
        assert before[j] == gs[j];
        assert Distance(h, j, |fs|) != k;
      }
    }
  }

  // Clearing use bits occupies and frees nothing, so the third pass may look at either table.
  lemma SameOccupied(fs: seq<Frame>, gs: seq<Frame>, h: nat, v: int)
    requires |fs| > 0 ==> h < |fs| && ClearedBefore(fs, gs, h, |fs|)
    requires |gs| == |fs|
    requires if v < 0 then v == -1 && !Any(gs, Occupied) else v < |gs| && FirstAt(gs, h, Distance(h, v, |gs|), Occupied)
    ensures if v < 0 then !Any(fs, Occupied) && gs == fs else FirstAt(fs, h, Distance(h, v, |fs|), Occupied)
  {
    assert forall i :: 0 <= i < |fs| ==> gs[i].free == fs[i].free;
    if v < 0 {
      forall i | 0 <= i < |fs| ensures gs[i] == fs[i] && !Occupied(fs[i]) {
        assert !Occupied(gs[i]);
      }
    } else {
      forall j: nat | j < Distance(h, v, |fs|) ensures !Occupied(fs[At(h, j, |fs|)]) {
        assert !Occupied(gs[At(h, j, |fs|)]);
      }
    }
  }

  // A frame found is a witness for its class.
  lemma FirstIsAny(fs: seq<Frame>, h: nat, v: nat)
    requires v < |fs| && h < |fs|
    ensures fs[At(h, Distance(h, v, |fs|), |fs|)] == fs[v]
  {
  }

  // Storage differs from before at most in the page of frame f, which now has the bytes readers see.
  ghost predicate WrittenOnly(before: Pages, after: Pages, flat: Pages, f: Frame) {
    && after.Keys == before.Keys && flat.Keys == before.Keys
    && forall p :: p in before ==> after[p] == before[p] || (Matches(f, p) && after[p] == flat[p])
  }

  // Storage has the bytes readers see of the page in frame f.
  ghost predicate UpToDate(pages: Pages, flat: Pages, f: Frame) {
    forall p :: p in pages && p in flat && Matches(f, p) ==> pages[p] == flat[p]
  }

  lemma NothingWritten(c: Cache, f: Frame)
    requires c.Layout()
    ensures WrittenOnly(c.pages, c.pages, c.Flat(), f)
  {
  }

  lemma WritesOnly(c: Cache, i: nat)
    requires c.Valid() && i < |c.frames| && Named(c.frames[i])
    ensures var d := WrittenBack(c, i, false);
            d.pages.Keys == c.pages.Keys && WrittenOnly(c.pages, d.pages, c.Flat(), c.frames[i]) && UpToDate(d.pages, c.Flat(), c.frames[i])
  {
    var key := Key(c.frames[i]);
    assert c.FrameOk(i);
    LookupUnique(c.frames, i, key);
    assert c.Flat()[key] == c.ViewOf(key);
  }

  lemma CleanUpToDate(c: Cache, i: nat)
    requires c.Valid() && i < |c.frames| && !c.frames[i].dirty
    ensures UpToDate(c.pages, c.Flat(), c.frames[i])
  {
    assert c.FrameOk(i);
    if Named(c.frames[i]) {
      var key := Key(c.frames[i]);
      LookupUnique(c.frames, i, key);
      assert c.Flat()[key] == c.ViewOf(key);
    }
  }

  // A property that fails all the way around the circle fails everywhere.
  lemma NoneAround(fs: seq<Frame>, h: nat, p: Frame -> bool)
    requires |fs| > 0 ==> h < |fs| && forall j: nat :: j < |fs| ==> !p(fs[At(h, j, |fs|)])
    ensures !Any(fs, p)
  {
    forall i | 0 <= i < |fs| ensures !p(fs[i]) {
      assert fs[At(h, Distance(h, i, |fs|), |fs|)] == fs[i];
    }
  }

  // Slices of ps bytes, one behind the other.
  lemma SliceFits(i: nat, n: nat, ps: nat, size: nat)
    requires ps > 0 && i < n == size / ps
    ensures i * ps + ps <= size
  {
    DivMod(size, ps);
    SliceBefore(i, n, ps);
  }

  lemma SliceBefore(i: nat, j: nat, ps: nat)
    requires i < j
    ensures i * ps + ps <= j * ps
  {
    MulMonotone(i + 1, j, ps);
    assert (i + 1) * ps == i * ps + ps;
  }

  lemma InitialLayout(fs: seq<Frame>, size: nat, ps: nat)
    requires ps > 0 && |fs| == size / ps
    requires forall i :: 0 <= i < |fs| ==> fs[i].base == i * ps
    ensures forall i :: 0 <= i < |fs| ==> fs[i].base + ps <= size
    ensures forall i, j :: 0 <= i < j < |fs| ==> fs[i].base + ps <= fs[j].base
  {
    forall i | 0 <= i < |fs| ensures fs[i].base + ps <= size {
      SliceFits(i, |fs|, ps, size);
    }
    forall i, j | 0 <= i < j < |fs| ensures fs[i].base + ps <= fs[j].base {
      assert fs[i].base == i * ps && fs[j].base == j * ps;
      SliceBefore(i, j, ps);
    }
  }

  lemma InitialCache(c: Cache)
    requires c.Layout() && Sized(c.pages, c.pageSize)
    requires forall i :: 0 <= i < |c.frames| ==> c.frames[i].free && !c.frames[i].dirty && c.frames[i].u == 0 && c.frames[i].m == 0
    ensures c.Valid() && c.Flat() == c.pages
  {
    assert c.Flat() == c.pages;
  }

  lemma InitialMirror(fs: seq<Frame>)
    requires forall i :: 0 <= i < |fs| ==> fs[i].free
    ensures Mirrors(fs, Stack([])) && Misses([], |fs|) == 0
  {
    NoneOccupied(fs);
    NothingPlaced(fs);
    assert Stack([]) == [] && Top([], |fs|) == [] && Misses([], |fs|) == 0;
    hide Stack, Top, Misses, PlacedAt, Count;
  }

  lemma NothingPlaced(fs: seq<Frame>)
    requires forall i :: 0 <= i < |fs| ==> fs[i].free
    ensures PlacedAt(fs, [], [])
  {
  }

  lemma {:induction false} NoneOccupied(fs: seq<Frame>)
    requires forall i :: 0 <= i < |fs| ==> fs[i].free
    ensures Count(fs, Occupied) == 0
  {
    if fs != [] { NoneOccupied(fs[..|fs| - 1]); }
  }
}
