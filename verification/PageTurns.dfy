/** What the turns of acceder_memoria make of frame table and hand: fetches that succeed and fail, the marks
    a turn leaves, and the second chance that CLOCK-M gives because of them. */
module PageTurns {
  import opened Common
  import opened PageCache
  import opened Replacement

  /** After a failed fetch. Nothing changed if a frame was free or there is none; otherwise the policy chose
      victim v, and its page is still there, as it could not be written back, or the frame is left occupied,
      clean and without a name, as the new page could not be read. */
  ghost predicate FetchFailed(policy: Policy, fs: seq<Frame>, h: nat, gs: seq<Frame>, h': nat, v: int)
    requires |fs| > 0 ==> h < |fs|
  {
    if fs == [] || Any(fs, IsFree) then v == -1 && gs == fs && h' == h
    else
      && 0 <= v < |fs|
      && exists cs :: Chooses(policy, fs, h, v, cs, h') && |cs| == |fs| && (gs == cs || gs == cs[v := Nameless(cs[v])])
  }

  function Nameless(f: Frame): Frame {
    f.(dirty := false, m := 0, name := None)
  }

  /** The victim of a failed fetch is still evictable: LRU picks it again at once; CLOCK-M finds its use bit
      clear, and in the class looked for first once it has no name. */
  lemma NamelessStaysEvictable(policy: Policy, fs: seq<Frame>, h: nat, gs: seq<Frame>, h': nat, v: nat)
    requires |fs| > 0 ==> h < |fs|
    requires forall i :: 0 <= i < |fs| ==> fs[i].u <= 1 && (fs[i].dirty <==> fs[i].m == 1) && fs[i].m <= 1 && (fs[i].dirty ==> Named(fs[i]))
    requires FetchFailed(policy, fs, h, gs, h', v)
    ensures v < |gs| && (gs[v].name == None ==> !gs[v].dirty)
    ensures if policy.LRU? then LruSpec(gs, v) else gs[v].u == 0 && (gs[v].name == None ==> Clean(gs[v]))
  {
    var cs :| Chooses(policy, fs, h, v, cs, h') && |cs| == |fs| && (gs == cs || gs == cs[v := Nameless(cs[v])]);
    ChoosesOnlyUse(policy, fs, h, v, cs, h');
    assert forall i :: 0 <= i < |fs| ==> gs[i].free == fs[i].free && gs[i].lastUsed == fs[i].lastUsed;
    assert !fs[v].free;
  }

  // The two failures of a fetch without a free frame: no frame at all, and a victim that cannot be written back.
  lemma NoFrame(policy: Policy, fs: seq<Frame>, h: nat, gs: seq<Frame>, h': nat, v: int)
    requires fs == [] && Chooses(policy, fs, h, v, gs, h')
    ensures FetchFailed(policy, fs, h, gs, h', -1)
  {
  }

  lemma SomeVictim(policy: Policy, fs: seq<Frame>, h: nat, gs: seq<Frame>, h': nat, v: int)
    requires fs != [] && h < |fs| && Chooses(policy, fs, h, v, gs, h') && forall i :: 0 <= i < |fs| ==> !fs[i].free
    ensures v >= 0
  {
    assert Occupied(fs[0]);
  }

  lemma VictimKept(policy: Policy, fs: seq<Frame>, h: nat, gs: seq<Frame>, h': nat, v: nat)
    requires |fs| > 0 ==> h < |fs|
    requires v < |fs| == |gs| && Chooses(policy, fs, h, v, gs, h') && forall i :: 0 <= i < |fs| ==> !fs[i].free
    ensures FetchFailed(policy, fs, h, gs, h', v)
  {
    assert !Any(fs, IsFree);
    hide Chooses;
  }

  // What the end of a turn makes of the frame it used.
  function Used(f: Frame, write: bool, now: nat): Frame {
    if write then f.(u := 1, lastUsed := now, dirty := true, m := 1) else f.(u := 1, lastUsed := now)
  }

  /** One turn of acceder_memoria on frame table and hand: page p is fetched, and its frame marked. */
  ghost predicate Turned(policy: Policy, fs: seq<Frame>, h: nat, gs: seq<Frame>, h': nat, p: PageId, write: bool, now: nat)
    requires |fs| > 0 ==> h < |fs|
  {
    exists ms, r: nat :: Fetched(policy, fs, h, ms, h', p, r) && r < |ms| && gs == ms[r := Used(ms[r], write, now)]
  }

  function Front(trail: seq<PageId>): (r: seq<PageId>)
    requires trail != []
    ensures |r| < |trail|
  {
    trail[..|trail| - 1]
  }

  function Last(trail: seq<PageId>): PageId
    requires trail != []
  {
    trail[|trail| - 1]
  }

  /** The turns that touch the pages of `trail`, one after the other. */
  ghost predicate Walked(policy: Policy, fs: seq<Frame>, h: nat, gs: seq<Frame>, h': nat, trail: seq<PageId>, write: bool)
    requires |fs| > 0 ==> h < |fs|
    decreases |trail|
  {
    if trail == [] then gs == fs && h' == h
    else
      exists ms, k: nat, now: nat ::
        && Walked(policy, fs, h, ms, k, Front(trail), write) && (|ms| > 0 ==> k < |ms|)
        && Turned(policy, ms, k, gs, h', Last(trail), write, now)
  }

  /** An access that touched `trail`: it ends there, or the fetch of one page more failed. */
  ghost predicate Accessed(policy: Policy, fs: seq<Frame>, h: nat, gs: seq<Frame>, h': nat, trail: seq<PageId>, write: bool, ok: bool)
    requires |fs| > 0 ==> h < |fs|
  {
    if ok then Walked(policy, fs, h, gs, h', trail, write)
    else
      exists ms, k: nat, v ::
        Walked(policy, fs, h, ms, k, trail, write) && (|ms| > 0 ==> k < |ms|) && FetchFailed(policy, ms, k, gs, h', v)
  }

  // The frame a turn used is marked.
  lemma TurnMarks(policy: Policy, fs: seq<Frame>, h: nat, gs: seq<Frame>, h': nat, p: PageId, write: bool, now: nat)
    requires |fs| > 0 ==> h < |fs|
    requires Turned(policy, fs, h, gs, h', p, write, now) && Unique(gs)
    ensures var r := Lookup(gs, p);
            r >= 0 && gs[r].u == 1 && gs[r].lastUsed == now && (write ==> gs[r].dirty && gs[r].m == 1)
  {
    var ms, r: nat :| Fetched(policy, fs, h, ms, h', p, r) && r < |ms| && gs == ms[r := Used(ms[r], write, now)];
    FetchedMatches(policy, fs, h, ms, h', p, r);
    LookupUnique(gs, r, p);
  }

  lemma FetchedMatches(policy: Policy, fs: seq<Frame>, h: nat, gs: seq<Frame>, h': nat, p: PageId, r: int)
    requires |fs| > 0 ==> h < |fs|
    requires Fetched(policy, fs, h, gs, h', p, r)
    ensures |gs| == |fs| && 0 <= r < |fs| && Matches(gs[r], p)
  {
    if Lookup(fs, p) < 0 && !Any(fs, IsFree) {
      var cs :| Chooses(policy, fs, h, r, cs, h') && gs == cs[r := Loaded(cs[r], p, gs[r].lastUsed)];
      assert gs[r] == Loaded(cs[r], p, gs[r].lastUsed);
    }
  }

  /** A page whose frame has U = 1 stays where it is, unless every frame is occupied and has U = 1. */
  ghost predicate KeepsUsed(fs: seq<Frame>, gs: seq<Frame>) {
    (exists i :: 0 <= i < |fs| && (fs[i].free || fs[i].u == 0)) ==>
      forall q :: Lookup(fs, q) >= 0 && fs[Lookup(fs, q)].u == 1 ==> Lookup(gs, q) == Lookup(fs, q)
  }

  // What a fetch leaves of the other frames under CLOCK-M, when it succeeds and when it fails.
  lemma FetchedKeeps(fs: seq<Frame>, h: nat, gs: seq<Frame>, h': nat, p: PageId, r: int, k: nat)
    requires |fs| > 0 ==> h < |fs|
    requires forall i :: 0 <= i < |fs| ==> fs[i].u <= 1 && fs[i].m <= 1
    requires exists i :: 0 <= i < |fs| && (fs[i].free || fs[i].u == 0)
    requires k < |fs| && Named(fs[k]) && fs[k].u == 1
    requires Fetched(ClockM, fs, h, gs, h', p, r)
    ensures |gs| == |fs| && SamePage(fs[k], gs[k])
  {
    if Lookup(fs, p) < 0 && !Any(fs, IsFree) {
      var cs :| Chooses(ClockM, fs, h, r, cs, h') && gs == cs[r := Loaded(cs[r], p, gs[r].lastUsed)];
      hide Fetched, ClockSpec;
      NoneFree(fs);
      VictimUnused(fs, h, r, cs, h', k);
    }
  }

  lemma FailedKeeps(fs: seq<Frame>, h: nat, gs: seq<Frame>, h': nat, v: int, k: nat)
    requires |fs| > 0 ==> h < |fs|
    requires forall i :: 0 <= i < |fs| ==> fs[i].u <= 1 && fs[i].m <= 1
    requires exists i :: 0 <= i < |fs| && (fs[i].free || fs[i].u == 0)
    requires k < |fs| && Named(fs[k]) && fs[k].u == 1
    requires FetchFailed(ClockM, fs, h, gs, h', v)
    ensures |gs| == |fs| && SamePage(fs[k], gs[k])
  {
    if !Any(fs, IsFree) {
      var cs :| Chooses(ClockM, fs, h, v, cs, h') && |cs| == |fs| && (gs == cs || gs == cs[v := Nameless(cs[v])]);
      hide FetchFailed, ClockSpec;
      NoneFree(fs);
      VictimUnused(fs, h, v, cs, h', k);
    }
  }

  lemma NoneFree(fs: seq<Frame>)
    requires !Any(fs, IsFree)
    ensures forall i :: 0 <= i < |fs| ==> !fs[i].free
  {
    forall i | 0 <= i < |fs| ensures !fs[i].free { assert !IsFree(fs[i]); }
  }

  lemma VictimUnused(fs: seq<Frame>, h: nat, v: int, cs: seq<Frame>, h': nat, k: nat)
    requires |fs| > 0 ==> h < |fs|
    requires forall i :: 0 <= i < |fs| ==> fs[i].u <= 1 && fs[i].m <= 1
    requires Chooses(ClockM, fs, h, v, cs, h') && k < |fs| && fs[k].u == 1
    requires exists i :: 0 <= i < |fs| && !fs[i].free && fs[i].u == 0
    ensures v != k && |cs| == |fs| && SamePage(fs[k], cs[k])
  {
    ClockSecondChance(fs, h, v, cs, h');
    ChoosesOnlyUse(ClockM, fs, h, v, cs, h');
  }

  /** CLOCK-M's second chance over a whole turn, or a fetch that failed. */
  lemma SecondChance(fs: seq<Frame>, h: nat, gs: seq<Frame>, h': nat, p: PageId, write: bool, now: nat)
    requires |fs| > 0 ==> h < |fs|
    requires forall i :: 0 <= i < |fs| ==> fs[i].u <= 1 && fs[i].m <= 1
    requires Unique(gs)
    requires Turned(ClockM, fs, h, gs, h', p, write, now) || exists v :: FetchFailed(ClockM, fs, h, gs, h', v)
    ensures KeepsUsed(fs, gs)
  {
    hide Fetched, FetchFailed, ClockSpec;
    if exists i :: 0 <= i < |fs| && (fs[i].free || fs[i].u == 0) {
      forall q | Lookup(fs, q) >= 0 && fs[Lookup(fs, q)].u == 1 ensures Lookup(gs, q) == Lookup(fs, q) {
        var k := Lookup(fs, q);
        if Turned(ClockM, fs, h, gs, h', p, write, now) {
          var ms, r: nat :| Fetched(ClockM, fs, h, ms, h', p, r) && r < |ms| && gs == ms[r := Used(ms[r], write, now)];
          FetchedKeeps(fs, h, ms, h', p, r, k);
          assert SamePage(ms[k], gs[k]);
        } else {
          var v :| FetchFailed(ClockM, fs, h, gs, h', v);
          FailedKeeps(fs, h, gs, h', v, k);
        }
        LookupUnique(gs, k, q);
      }
    }
  }

  lemma NothingWalked(policy: Policy, fs: seq<Frame>, h: nat, write: bool)
    requires |fs| > 0 ==> h < |fs|
    ensures Walked(policy, fs, h, fs, h, [], write)
  {
  }

  lemma WalkedOn(policy: Policy, fs: seq<Frame>, h: nat, ms: seq<Frame>, k: nat, gs: seq<Frame>, h': nat,
                 trail: seq<PageId>, p: PageId, write: bool, now: nat)
    requires |fs| > 0 ==> h < |fs|
    requires Walked(policy, fs, h, ms, k, trail, write) && (|ms| > 0 ==> k < |ms|) && Turned(policy, ms, k, gs, h', p, write, now)
    ensures Walked(policy, fs, h, gs, h', trail + [p], write) && Accessed(policy, fs, h, gs, h', trail + [p], write, true)
  {
    hide Turned;
    assert Front(trail + [p]) == trail && Last(trail + [p]) == p;
  }

  lemma BrokenOff(policy: Policy, fs: seq<Frame>, h: nat, ms: seq<Frame>, k: nat, gs: seq<Frame>, h': nat,
                  trail: seq<PageId>, write: bool)
    requires |fs| > 0 ==> h < |fs|
    requires Walked(policy, fs, h, ms, k, trail, write) && (|ms| > 0 ==> k < |ms|) && exists v :: FetchFailed(policy, ms, k, gs, h', v)
    ensures Accessed(policy, fs, h, gs, h', trail, write, false)
  {
    hide FetchFailed, Walked;
  }
}
