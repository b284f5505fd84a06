/** The stack property of LRU: with n frames the resident pages are the n most recently used
    distinct pages, so more frames never mean more misses. */
module LruStack {
  import opened Common
  import opened PageCache
  import opened Replacement

  function Remove(s: seq<PageId>, p: PageId): seq<PageId> {
    if s == [] then [] else if s[0] == p then s[1..] else [s[0]] + Remove(s[1..], p)
  }

  function MoveToFront(s: seq<PageId>, p: PageId): seq<PageId> {
    [p] + Remove(s, p)
  }

  /** The pages of an access history, each once, most recently used first. */
  function Stack(history: seq<PageId>): seq<PageId> {
    if history == [] then [] else MoveToFront(Stack(history[..|history| - 1]), history[|history| - 1])
  }

  function Min(a: nat, b: nat): nat { if a <= b then a else b }

  function Top(s: seq<PageId>, n: nat): seq<PageId> {
    s[..Min(n, |s|)]
  }

  ghost predicate Distinct(s: seq<PageId>) {
    forall a, b :: 0 <= a < b < |s| ==> s[a] != s[b]
  }

  // Where the pages of `s` are after `p` was taken out.
  lemma {:induction false} RemoveAt(s: seq<PageId>, p: PageId)
    requires Distinct(s)
    ensures p !in s ==> Remove(s, p) == s
    ensures forall k :: 0 <= k < |s| && s[k] == p ==> Remove(s, p) == s[..k] + s[k + 1..]
  {
    if s != [] && s[0] != p {
      RemoveAt(s[1..], p);
      forall k | 0 <= k < |s| && s[k] == p ensures Remove(s, p) == s[..k] + s[k + 1..] {
        assert s[1..][k - 1] == p;
        assert [s[0]] + (s[1..][..k - 1] + s[1..][k..]) == s[..k] + s[k + 1..];
      }
      if p !in s { assert p !in s[1..]; assert [s[0]] + s[1..] == s; }
    }
  }

  lemma {:induction false} RemoveDistinct(s: seq<PageId>, p: PageId)
    requires Distinct(s)
    ensures Distinct(Remove(s, p))
    ensures forall x :: x in Remove(s, p) ==> x in s && x != p
  {
    if s != [] {
      if s[0] == p {
        forall x | x in s[1..] ensures x in s && x != p {
        }
      } else {
        RemoveDistinct(s[1..], p);
        var rest := Remove(s[1..], p);
        forall b | 0 <= b < |rest| ensures rest[b] != s[0] {
          assert rest[b] in s[1..];
        }
      }
    }
  }

  lemma MoveToFrontDistinct(s: seq<PageId>, p: PageId)
    requires Distinct(s)
    ensures Distinct(MoveToFront(s, p))
  {
    RemoveDistinct(s, p);
    var rest := Remove(s, p);
    forall b | 0 <= b < |rest| ensures rest[b] != p {
      assert rest[b] in rest;
    }
  }

  lemma {:induction false} StackDistinct(history: seq<PageId>)
    ensures Distinct(Stack(history))
  {
    if history != [] {
      StackDistinct(history[..|history| - 1]);
      MoveToFrontDistinct(Stack(history[..|history| - 1]), history[|history| - 1]);
    }
  }

  // x comes to the front; the element at position k goes (k == |q|: none does).
  function Front<T>(q: seq<T>, x: T, k: nat): seq<T>
    requires k <= |q|
  {
    [x] + q[..k] + if k < |q| then q[k + 1..] else []
  }

  /** How the n most recent pages change: a page already among them moves to the front; any other
      page comes in front and, when there are n of them, pushes out the last one. */
  lemma TopAfterAccess(s: seq<PageId>, p: PageId, n: nat, k: nat)
    requires Distinct(s) && n > 0 && k <= |Top(s, n)|
    requires if p in Top(s, n) then k < |Top(s, n)| && s[k] == p else k == Min(n - 1, |Top(s, n)|)
    ensures |Top(MoveToFront(s, p), n)| == |Top(s, n)| + (if k == |Top(s, n)| then 1 else 0)
    ensures Top(MoveToFront(s, p), n) == Front(Top(s, n), p, k)
  {
    RemoveAt(s, p);
    if p !in s {
      assert MoveToFront(s, p) == [p] + s;
      TopFresh(s, p, n, k);
    } else {
      var j :| 0 <= j < |s| && s[j] == p;
      assert MoveToFront(s, p) == [p] + (s[..j] + s[j + 1..]);
      hide Front, Remove, MoveToFront;
      if j < n { TopHit(s, p, n, k, j); } else { TopMiss(s, p, n, k, j); }
    }
  }

  lemma TopFresh(s: seq<PageId>, p: PageId, n: nat, k: nat)
    requires n > 0 && k == Min(n - 1, |Top(s, n)|) && p !in Top(s, n)
    ensures |Top([p] + s, n)| == |Top(s, n)| + (if k == |Top(s, n)| then 1 else 0)
    ensures Top([p] + s, n) == Front(Top(s, n), p, k)
  {
    assert Front(Top(s, n), p, k) == [p] + s[..k];
  }

  lemma TopHit(s: seq<PageId>, p: PageId, n: nat, k: nat, j: nat)
    requires Distinct(s) && j < n && j < |s| && s[j] == p && k < |Top(s, n)| && s[k] == p
    requires MoveToFront(s, p) == [p] + (s[..j] + s[j + 1..])
    ensures |Top(MoveToFront(s, p), n)| == |Top(s, n)|
    ensures Top(MoveToFront(s, p), n) == Front(Top(s, n), p, k)
  {
    assert j == k;
    assert Top(s, n)[..k] == s[..k] && Top(s, n)[k + 1..] == s[k + 1..Min(n, |s|)];
  }

  lemma TopMiss(s: seq<PageId>, p: PageId, n: nat, k: nat, j: nat)
    requires Distinct(s) && 0 < n <= j < |s| && s[j] == p && k == n - 1
    requires MoveToFront(s, p) == [p] + (s[..j] + s[j + 1..])
    ensures |Top(MoveToFront(s, p), n)| == |Top(s, n)|
    ensures Top(MoveToFront(s, p), n) == Front(Top(s, n), p, k)
  {
    assert Front(Top(s, n), p, k) == [p] + s[..k];
  }

  // ---------- the frames of a memory under LRU ----------

  /** Frame w[k] holds page top[k]; no other frame is occupied; last uses decrease along the list. */
  ghost predicate PlacedAt(fs: seq<Frame>, top: seq<PageId>, w: seq<nat>) {
    && |w| == |top| && Distinct(top)
    && (forall k :: 0 <= k < |w| ==> w[k] < |fs| && Matches(fs[w[k]], top[k]))
    && (forall i :: 0 <= i < |fs| && !fs[i].free ==> i in w)
    && (forall a, b :: 0 <= a < b < |w| ==> fs[w[a]].lastUsed > fs[w[b]].lastUsed)
  }

  /** The frame table reflects recency stack `s`. */
  ghost predicate Mirrors(fs: seq<Frame>, s: seq<PageId>) {
    && Distinct(s)
    && Count(fs, Occupied) == |Top(s, |fs|)|
    && exists w :: PlacedAt(fs, Top(s, |fs|), w)
  }

  lemma ResidentAt(fs: seq<Frame>, top: seq<PageId>, w: seq<nat>, p: PageId)
    requires PlacedAt(fs, top, w)
    ensures Lookup(fs, p) >= 0 <==> p in top
  {
    if p in top {
      var k :| 0 <= k < |top| && top[k] == p;
      assert Matches(fs[w[k]], p);
    }
    var i := Lookup(fs, p);
    if i >= 0 {
      var k :| 0 <= k < |w| && w[k] == i;
      assert Matches(fs[i], top[k]);
    }
  }

  /** Resident pages = the most recently used distinct pages, as many as there are frames. */
  lemma ResidentIsTop(fs: seq<Frame>, s: seq<PageId>, p: PageId)
    requires Mirrors(fs, s)
    ensures Lookup(fs, p) >= 0 <==> p in Top(s, |fs|)
  {
    var w :| PlacedAt(fs, Top(s, |fs|), w);
    ResidentAt(fs, Top(s, |fs|), w, p);
  }

  lemma TopGrows(s: seq<PageId>, n: nat, m: nat, p: PageId)
    requires n <= m && p in Top(s, n)
    ensures p in Top(s, m)
  {
    var k :| 0 <= k < |Top(s, n)| && Top(s, n)[k] == p;
    assert Top(s, m)[k] == p;
  }

  /** Inclusion: what a smaller memory holds, a larger memory with the same history holds too. */
  lemma Inclusion(fs: seq<Frame>, gs: seq<Frame>, s: seq<PageId>, p: PageId)
    requires Mirrors(fs, s) && Mirrors(gs, s) && |fs| <= |gs|
    requires Lookup(fs, p) >= 0
    ensures Lookup(gs, p) >= 0
  {
    ResidentIsTop(fs, s, p);
    TopGrows(s, |fs|, |gs|, p);
    ResidentIsTop(gs, s, p);
  }

  /** Misses of history `h` with n frames. */
  function Misses(h: seq<PageId>, n: nat): nat {
    if h == [] then 0
    else Misses(h[..|h| - 1], n) + (if h[|h| - 1] in Top(Stack(h[..|h| - 1]), n) then 0 else 1)
  }

  /** LRU has no Belady anomaly: adding frames never adds misses. */
  lemma {:induction false} MissesNeverRise(h: seq<PageId>, n: nat, m: nat)
    requires n <= m
    ensures Misses(h, m) <= Misses(h, n)
  {
    if h != [] {
      MissesNeverRise(h[..|h| - 1], n, m);
      var s, p := Stack(h[..|h| - 1]), h[|h| - 1];
      if p in Top(s, n) { TopGrows(s, n, m, p); }
    }
  }

  // `gs` is `fs` with page p, used at a time later than every other frame, in frame r.
  ghost predicate Placed(fs: seq<Frame>, gs: seq<Frame>, p: PageId, r: nat) {
    && |gs| == |fs| && r < |fs| && Matches(gs[r], p)
    && (forall i :: 0 <= i < |fs| && i != r ==> SamePage(fs[i], gs[i]) && gs[i].lastUsed == fs[i].lastUsed)
    && (forall i :: 0 <= i < |fs| && i != r && !fs[i].free ==> fs[i].lastUsed < gs[r].lastUsed)
  }

  // The position before the move of what ends up at position j.
  function Origin(k: nat, j: nat): int { if j <= k then j - 1 else j }

  lemma FrontAt<T>(q: seq<T>, x: T, k: nat, j: nat)
    requires k <= |q| && 1 <= j < |Front(q, x, k)|
    ensures 0 <= Origin(k, j) < |q| && Origin(k, j) != k && Front(q, x, k)[j] == q[Origin(k, j)]
  {
  }

  // Taking position k out and putting page p, in frame r, in front keeps the placement.
  lemma PlacedFront(fs: seq<Frame>, gs: seq<Frame>, top: seq<PageId>, w: seq<nat>, p: PageId, r: nat, k: nat)
    requires PlacedAt(fs, top, w) && Placed(fs, gs, p, r) && k <= |w|
    requires if k < |w| then w[k] == r else r !in w
    requires forall j :: 0 <= j < |top| && j != k ==> top[j] != p
    ensures PlacedAt(gs, Front(top, p, k), Front(w, r, k))
  {
    var t, v := Front(top, p, k), Front(w, r, k);
    assert |v| == |t| && |gs| == |fs|;
    hide *;
    forall j | 0 <= j < |v| ensures v[j] < |gs| && Matches(gs[v[j]], t[j]) {
      FrontMatches(fs, gs, top, w, p, r, k, j);
    }
    forall a, b | 0 <= a < b < |t| ensures t[a] != t[b] && gs[v[a]].lastUsed > gs[v[b]].lastUsed {
      FrontPair(fs, gs, top, w, p, r, k, a, b);
    }
    forall i | 0 <= i < |gs| && !gs[i].free ensures i in v {
      FrontCovers(fs, gs, top, w, p, r, k, i);
    }
    AllPlaced(gs, t, v);
  }

  lemma AllPlaced(fs: seq<Frame>, top: seq<PageId>, w: seq<nat>)
    requires |w| == |top| && forall k :: 0 <= k < |w| ==> w[k] < |fs| && Matches(fs[w[k]], top[k])
    requires forall a, b :: 0 <= a < b < |top| ==> top[a] != top[b] && fs[w[a]].lastUsed > fs[w[b]].lastUsed
    requires forall i :: 0 <= i < |fs| && !fs[i].free ==> i in w
    ensures PlacedAt(fs, top, w)
  {
  }

  lemma FrontMatches(fs: seq<Frame>, gs: seq<Frame>, top: seq<PageId>, w: seq<nat>, p: PageId, r: nat, k: nat, j: nat)
    requires PlacedAt(fs, top, w) && Placed(fs, gs, p, r) && k <= |w| == |top| && j < |Front(w, r, k)|
    requires if k < |w| then w[k] == r else r !in w
    requires forall j :: 0 <= j < |top| && j != k ==> top[j] != p
    ensures |Front(top, p, k)| == |Front(w, r, k)|
    ensures Front(w, r, k)[j] < |gs| && Matches(gs[Front(w, r, k)[j]], Front(top, p, k)[j])
  {
    if j > 0 { FrontEntry(fs, gs, top, w, p, r, k, j); }
  }

  // Later entries of the new list were used earlier.
  lemma FrontPair(fs: seq<Frame>, gs: seq<Frame>, top: seq<PageId>, w: seq<nat>, p: PageId, r: nat, k: nat, a: nat, b: nat)
    requires PlacedAt(fs, top, w) && Placed(fs, gs, p, r) && k <= |w| && a < b < |Front(w, r, k)|
    requires if k < |w| then w[k] == r else r !in w
    requires forall j :: 0 <= j < |top| && j != k ==> top[j] != p
    ensures var t, v := Front(top, p, k), Front(w, r, k);
            v[a] < |gs| && v[b] < |gs| && t[a] != t[b] && gs[v[a]].lastUsed > gs[v[b]].lastUsed
  {
    FrontEntry(fs, gs, top, w, p, r, k, b);
    if a > 0 {
      FrontEntry(fs, gs, top, w, p, r, k, a);
      assert Origin(k, a) < Origin(k, b);
    }
  }

  // Entry j > 0 of the new list is an old entry, untouched and used before p.
  lemma FrontEntry(fs: seq<Frame>, gs: seq<Frame>, top: seq<PageId>, w: seq<nat>, p: PageId, r: nat, k: nat, j: nat)
    requires PlacedAt(fs, top, w) && Placed(fs, gs, p, r) && k <= |w| && 1 <= j < |Front(w, r, k)|
    requires if k < |w| then w[k] == r else r !in w
    requires forall j :: 0 <= j < |top| && j != k ==> top[j] != p
    ensures var o := Origin(k, j); var i, q := Front(w, r, k)[j], Front(top, p, k)[j];
            && 0 <= o < |w| && i == w[o] && q == top[o] && q != p && i < |gs| && Matches(gs[i], q)
            && gs[i].lastUsed == fs[i].lastUsed < gs[r].lastUsed
  {
    FrontAt(top, p, k, j);
    FrontAt(w, r, k, j);
    var o := Origin(k, j);
    OthersElsewhere(fs, top, w, r, k, o);
    assert SamePage(fs[w[o]], gs[w[o]]);
  }

  lemma OthersElsewhere(fs: seq<Frame>, top: seq<PageId>, w: seq<nat>, r: nat, k: nat, o: nat)
    requires PlacedAt(fs, top, w) && k <= |w| && o < |w| && o != k
    requires if k < |w| then w[k] == r else r !in w
    ensures w[o] != r
  {
    if k < |w| {
      if o < k { assert fs[w[o]].lastUsed > fs[w[k]].lastUsed; } else { assert fs[w[k]].lastUsed > fs[w[o]].lastUsed; }
    }
  }

  lemma FrontCovers(fs: seq<Frame>, gs: seq<Frame>, top: seq<PageId>, w: seq<nat>, p: PageId, r: nat, k: nat, i: nat)
    requires PlacedAt(fs, top, w) && Placed(fs, gs, p, r) && k <= |w| && i < |gs| && !gs[i].free
    requires if k < |w| then w[k] == r else r !in w
    ensures i in Front(w, r, k)
  {
    var v := Front(w, r, k);
    if i == r {
      assert v[0] == r;
    } else {
      assert SamePage(fs[i], gs[i]);
      var o :| 0 <= o < |w| && w[o] == i;
      assert v[if o < k then o + 1 else o] == i;
    }
  }

  lemma {:induction false} PlacedCount(fs: seq<Frame>, gs: seq<Frame>, r: nat, n: nat)
    requires |gs| == |fs| && r < n <= |fs| && !gs[r].free
    requires forall i :: 0 <= i < |fs| && i != r ==> gs[i].free == fs[i].free
    ensures Count(gs[..n], Occupied) == Count(fs[..n], Occupied) + (if fs[r].free then 1 else 0)
  {
    assert gs[..n][..n - 1] == gs[..n - 1] && fs[..n][..n - 1] == fs[..n - 1];
    if n - 1 == r {
      SameCount(fs[..r], gs[..r]);
    } else {
      PlacedCount(fs, gs, r, n - 1);
    }
  }

  lemma PlacedCountAll(fs: seq<Frame>, gs: seq<Frame>, r: nat)
    requires |gs| == |fs| && r < |fs| && !gs[r].free
    requires forall i :: 0 <= i < |fs| && i != r ==> gs[i].free == fs[i].free
    ensures Count(gs, Occupied) == Count(fs, Occupied) + (if fs[r].free then 1 else 0)
  {
    assert fs[..|fs|] == fs && gs[..|gs|] == gs;
    PlacedCount(fs, gs, r, |fs|);
  }

  lemma {:induction false} SameCount(fs: seq<Frame>, gs: seq<Frame>)
    requires |gs| == |fs| && forall i :: 0 <= i < |fs| ==> gs[i].free == fs[i].free
    ensures Count(gs, Occupied) == Count(fs, Occupied)
  {
    if fs != [] { SameCount(fs[..|fs| - 1], gs[..|gs| - 1]); }
  }

  // The frame that p goes to: its own on a hit; otherwise a free one, or that of the last page.
  ghost predicate RightFrame(fs: seq<Frame>, top: seq<PageId>, w: seq<nat>, p: PageId, r: nat, k: nat)
    requires r < |fs|
  {
    && k <= |w| == |top|
    && (p in top ==> k < |top| && top[k] == p)
    && (p !in top ==> k == Min(|fs| - 1, |top|))
    && (if k < |w| then w[k] == r else r !in w)
    && (fs[r].free <==> k == |w|)
  }

  lemma AccessKeepsMirror(fs: seq<Frame>, gs: seq<Frame>, s: seq<PageId>, w: seq<nat>, p: PageId, r: nat, k: nat)
    requires Distinct(s) && Count(fs, Occupied) == |Top(s, |fs|)| && PlacedAt(fs, Top(s, |fs|), w)
    requires Placed(fs, gs, p, r) && RightFrame(fs, Top(s, |fs|), w, p, r, k)
    ensures Mirrors(gs, MoveToFront(s, p))
  {
    var n := |fs|;
    var top := Top(s, n);
    MoveToFrontDistinct(s, p);
    TopAfterAccess(s, p, n, k);
    PlacedFront(fs, gs, top, w, p, r, k);
    PlacedCountAll(fs, gs, r);
    assert PlacedAt(gs, Top(MoveToFront(s, p), n), Front(w, r, k));
  }

  // Under LRU the victim is the frame of the least recent of the resident pages.
  lemma VictimIsLast(fs: seq<Frame>, top: seq<PageId>, w: seq<nat>, v: nat)
    requires PlacedAt(fs, top, w) && v < |fs| && LruSpec(fs, v)
    ensures |w| > 0 && w[|w| - 1] == v
  {
    var k :| 0 <= k < |w| && w[k] == v;
    var last := w[|w| - 1];
    assert Matches(fs[last], top[|w| - 1]);
    assert fs[v].lastUsed <= fs[last].lastUsed;
    forall j | 0 <= j < |w| - 1 ensures w[j] != v {
      assert fs[w[j]].lastUsed > fs[last].lastUsed;
    }
  }

  /** One access keeps the frame table in step with the recency stack. */
  lemma AccessStep(fs: seq<Frame>, h: nat, ms: seq<Frame>, h': nat, gs: seq<Frame>, s: seq<PageId>, p: PageId, r: nat)
    requires |fs| > 0 ==> h < |fs|
    requires Mirrors(fs, s) && Fetched(LRU, fs, h, ms, h', p, r)
    requires |gs| == |ms| && SamePages(ms, gs) && forall i :: 0 <= i < |ms| && i != r ==> gs[i].lastUsed == ms[i].lastUsed
    requires forall i :: 0 <= i < |fs| && i != r && !ms[i].free ==> ms[i].lastUsed < gs[r].lastUsed
    ensures Mirrors(gs, MoveToFront(s, p))
  {
    var top := Top(s, |fs|);
    var w :| PlacedAt(fs, top, w);
    FetchedPlaces(fs, h, ms, h', gs, p, r);
    CountFull(fs, Occupied);
    var k := RightPosition(fs, top, w, p, r);
    AccessKeepsMirror(fs, gs, s, w, p, r, k);
  }

  // Fetching picks the frame that the recency list asks for.
  lemma RightPosition(fs: seq<Frame>, top: seq<PageId>, w: seq<nat>, p: PageId, r: nat) returns (k: nat)
    requires PlacedAt(fs, top, w) && r < |fs| && |top| <= |fs|
    requires |top| == |fs| <==> forall i :: 0 <= i < |fs| ==> Occupied(fs[i])
    requires if Lookup(fs, p) >= 0 then r == Lookup(fs, p) else if Any(fs, IsFree) then fs[r].free else LruSpec(fs, r)
    ensures RightFrame(fs, top, w, p, r, k)
  {
    ResidentAt(fs, top, w, p);
    if Lookup(fs, p) >= 0 {
      k :| 0 <= k < |w| && w[k] == r;
      assert Matches(fs[r], top[k]);
    } else if Any(fs, IsFree) {
      k := |w|;
      assert !Occupied(fs[r]);
      NoFreeListed(fs, top, w, r);
    } else {
      k := |w| - 1;
      forall i | 0 <= i < |fs| ensures Occupied(fs[i]) { assert !IsFree(fs[i]); }
      VictimIsLast(fs, top, w, r);
    }
  }

  lemma NoFreeListed(fs: seq<Frame>, top: seq<PageId>, w: seq<nat>, r: nat)
    requires PlacedAt(fs, top, w) && r < |fs| && fs[r].free
    ensures r !in w
  {
  }

  lemma FetchedPlaces(fs: seq<Frame>, h: nat, ms: seq<Frame>, h': nat, gs: seq<Frame>, p: PageId, r: nat)
    requires |fs| > 0 ==> h < |fs|
    requires Fetched(LRU, fs, h, ms, h', p, r)
    requires |gs| == |ms| && SamePages(ms, gs) && forall i :: 0 <= i < |ms| && i != r ==> gs[i].lastUsed == ms[i].lastUsed
    requires forall i :: 0 <= i < |fs| && i != r && !ms[i].free ==> ms[i].lastUsed < gs[r].lastUsed
    ensures Placed(fs, gs, p, r)
    ensures if Lookup(fs, p) >= 0 then r == Lookup(fs, p) else if Any(fs, IsFree) then fs[r].free else LruSpec(fs, r)
  {
    assert forall i :: 0 <= i < |fs| && i != r ==> ms[i] == fs[i];
    assert SamePage(ms[r], gs[r]);
  }
}
