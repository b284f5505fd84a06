/** Victim selection: what LRU and CLOCK-M choose, stated declaratively, and what follows from it. */
module Replacement {
  import opened PageCache
  import opened Arithmetic

  datatype Policy = LRU | ClockM

  predicate Occupied(f: Frame) { !f.free }

  // ---------- LRU ----------

  /** The first occupied frame of least last use; -1 when no frame is occupied. */
  ghost predicate LruSpec(fs: seq<Frame>, v: int) {
    if v < 0 then v == -1 && forall j :: 0 <= j < |fs| ==> fs[j].free
    else
      && v < |fs| && !fs[v].free
      && (forall j :: 0 <= j < |fs| && !fs[j].free ==> fs[v].lastUsed <= fs[j].lastUsed)
      && (forall j :: 0 <= j < v && !fs[j].free ==> fs[v].lastUsed < fs[j].lastUsed)
  }

  // ---------- CLOCK-M ----------

  // The k-th frame met when walking the circle of n frames from hand h.
  function At(h: nat, k: nat, n: nat): (r: nat)
    requires h < n && k < n
    ensures r < n
  {
    if h + k < n then h + k else h + k - n
  }

  lemma AtIsModulo(h: nat, k: nat, n: nat)
    requires h < n && k < n
    ensures At(h, k, n) == (h + k) % n
  {
    if h + k >= n {
      ModuloOnce(h + k, n);
    } else {
      QuotientIs(h + k, n, 0, h + k);
    }
  }

  // The frame after i on the circle.
  function Succ(i: nat, n: nat): (r: nat)
    requires i < n
    ensures r < n
  {
    if i + 1 < n then i + 1 else 0
  }

  lemma SuccIsModulo(i: nat, n: nat)
    requires i < n
    ensures Succ(i, n) == (i + 1) % n
  {
    if i + 1 == n {
      ModuloOnce(n, n);
    } else {
      QuotientIs(i + 1, n, 0, i + 1);
    }
  }

  // How far from the hand frame i is.
  function Distance(h: nat, i: nat, n: nat): (k: nat)
    requires h < n && i < n
    ensures k < n && At(h, k, n) == i
    ensures forall j: nat :: j < n && At(h, j, n) == i ==> j == k
  {
    if h <= i then i - h else i + n - h
  }

  predicate Clean(f: Frame) { !f.free && f.u == 0 && f.m == 0 }    // class (0,0)
  predicate Modified(f: Frame) { !f.free && f.u == 0 && f.m == 1 } // class (0,1)

  // The first frame in circular order that satisfies `p` is at distance k.
  ghost predicate FirstAt(fs: seq<Frame>, h: nat, k: nat, p: Frame -> bool)
    requires h < |fs| && k < |fs|
  {
    p(fs[At(h, k, |fs|)]) && forall j: nat :: j < k ==> !p(fs[At(h, j, |fs|)])
  }

  ghost predicate Any(fs: seq<Frame>, p: Frame -> bool) {
    exists i :: 0 <= i < |fs| && p(fs[i])
  }

  // Use bits cleared on the occupied frames at distance less than k, nothing else changed.
  ghost predicate ClearedBefore(fs: seq<Frame>, gs: seq<Frame>, h: nat, k: nat)
    requires |fs| > 0 ==> h < |fs|
  {
    && |gs| == |fs|
    && forall i :: 0 <= i < |fs| ==>
         gs[i] == if Occupied(fs[i]) && Distance(h, i, |fs|) < k then fs[i].(u := 0) else fs[i]
  }

  ghost predicate ClockSpec(fs: seq<Frame>, h: nat, v: int, gs: seq<Frame>, h': nat)
    requires |fs| > 0 ==> h < |fs|
  {
    if v < 0 then v == -1 && !Any(fs, Occupied) && gs == fs && h' == h
    else
      && v < |fs|
      && h' == Succ(v, |fs|)
      && var k := Distance(h, v, |fs|);
         if Any(fs, Clean) then FirstAt(fs, h, k, Clean) && gs == fs
         else if Any(fs, Modified) then FirstAt(fs, h, k, Modified) && ClearedBefore(fs, gs, h, k)
         else FirstAt(fs, h, k, Occupied) && ClearedBefore(fs, gs, h, |fs|)
  }

  /** The declarative description leaves no choice: victim, hand and use bits are determined. */
  lemma ClockDetermined(fs: seq<Frame>, h: nat, v: int, gs: seq<Frame>, hv: nat, w: int, gt: seq<Frame>, hw: nat)
    requires |fs| > 0 ==> h < |fs|
    requires ClockSpec(fs, h, v, gs, hv) && ClockSpec(fs, h, w, gt, hw)
    ensures v == w && gs == gt && hv == hw
  {
    if v >= 0 && w >= 0 {
      var n := |fs|;
      var k, l := Distance(h, v, n), Distance(h, w, n);
      assert fs[At(h, k, n)] == fs[v] && fs[At(h, l, n)] == fs[w];
      assert k == l;
    }
  }

  /** A recently used frame is given up only when every occupied frame was recently used; a modified
      one only when no occupied frame was both unused and unmodified; -1 only when nothing is occupied. */
  lemma ClockSecondChance(fs: seq<Frame>, h: nat, v: int, gs: seq<Frame>, h': nat)
    requires |fs| > 0 ==> h < |fs|
    requires forall i :: 0 <= i < |fs| ==> fs[i].u <= 1 && fs[i].m <= 1
    requires ClockSpec(fs, h, v, gs, h')
    ensures v == -1 <==> forall i :: 0 <= i < |fs| ==> fs[i].free
    ensures v >= 0 ==> !fs[v].free && h' < |fs| && h' == (v + 1) % |fs|
    ensures v >= 0 && fs[v].u == 1 ==> forall i :: 0 <= i < |fs| && !fs[i].free ==> fs[i].u == 1
    ensures v >= 0 && fs[v].m == 1 ==> forall i :: 0 <= i < |fs| && !fs[i].free ==> fs[i].u == 1 || fs[i].m == 1
    ensures v >= 0 ==> gs[v].u == 0
  {
    if v >= 0 {
      var n := |fs|;
      var k := Distance(h, v, n);
      assert fs[At(h, k, n)] == fs[v];
      SuccIsModulo(v, n);
      forall i | 0 <= i < n && !fs[i].free && fs[v].u == 1 ensures fs[i].u == 1 {
        assert !Clean(fs[i]) && !Modified(fs[i]);
      }
      forall i | 0 <= i < n && !fs[i].free && fs[v].m == 1 ensures fs[i].u == 1 || fs[i].m == 1 {
        assert !Clean(fs[i]);
      }
    } else {
      forall i | 0 <= i < |fs| ensures fs[i].free {
        assert !Occupied(fs[i]);
      }
    }
  }

  /** What one victim selection may do under either policy. */
  ghost predicate Chooses(policy: Policy, fs: seq<Frame>, h: nat, v: int, gs: seq<Frame>, h': nat)
    requires |fs| > 0 ==> h < |fs|
  {
    match policy
    case LRU => LruSpec(fs, v) && gs == fs && h' == h
    case ClockM => ClockSpec(fs, h, v, gs, h')
  }

  /** Selecting a victim never touches what a reader can see. */
  lemma ChoosesOnlyUse(policy: Policy, fs: seq<Frame>, h: nat, v: int, gs: seq<Frame>, h': nat)
    requires |fs| > 0 ==> h < |fs|
    requires Chooses(policy, fs, h, v, gs, h') && forall i :: 0 <= i < |fs| ==> fs[i].u <= 1 && fs[i].m <= 1
    ensures policy.ClockM? && v >= 0 ==> gs[v].u == 0
    ensures |gs| == |fs| && forall i :: 0 <= i < |fs| ==> gs[i] == fs[i].(u := gs[i].u) && gs[i].u <= 1
    ensures v < |fs| && (v >= 0 ==> !fs[v].free) && (v < 0 ==> v == -1 && forall i :: 0 <= i < |fs| ==> fs[i].free)
    ensures |fs| > 0 ==> h' < |fs|
  {
    if policy.ClockM? {
      ClockSecondChance(fs, h, v, gs, h');
      if v >= 0 {
        assert fs[At(h, Distance(h, v, |fs|), |fs|)] == fs[v];
      } else {
        forall i | 0 <= i < |fs| ensures fs[i].free { assert !Occupied(fs[i]); }
      }
    }
  }

  /** One page brought into memory: a hit, a free frame, or the policy's victim. */
  ghost predicate Fetched(policy: Policy, fs: seq<Frame>, h: nat, gs: seq<Frame>, h': nat, p: PageId, r: int)
    requires |fs| > 0 ==> h < |fs|
  {
    && |gs| == |fs| && 0 <= r < |fs|
    && var hit := Lookup(fs, p);
       if hit >= 0 then r == hit && h' == h && gs == fs[r := fs[r].(u := 1, lastUsed := gs[r].lastUsed)]
       else if Any(fs, IsFree) then
         && fs[r].free && (forall j :: 0 <= j < r ==> !fs[j].free)
         && h' == h && gs == fs[r := Loaded(fs[r], p, gs[r].lastUsed)]
       else exists cs :: Chooses(policy, fs, h, r, cs, h') && gs == cs[r := Loaded(cs[r], p, gs[r].lastUsed)]
  }

  predicate IsFree(f: Frame) { f.free }
}
