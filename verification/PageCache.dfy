/** The worker's page frames at value level: which frame holds which page, what the bytes of a
    page are, and why loading, cleaning, evicting and writing keep the picture consistent. */
module PageCache {
  import opened Common

  datatype FileTag = FileTag(file: string, tag: string)
  datatype PageId = PageId(ft: FileTag, number: nat)

  type Page = seq<Byte>
  type Pages = map<PageId, Page>

  /** One `Marco`. The C struct's `file` and `tag` pointers are always set and cleared together:
      `name` is None when both are NULL. `base` is the offset of the frame in the RAM buffer. */
  datatype Frame = Frame(free: bool, base: nat, name: Option<FileTag>, page: nat,
                         dirty: bool, u: nat, m: nat, lastUsed: nat)

  predicate Matches(f: Frame, p: PageId) {
    !f.free && f.name == Some(p.ft) && f.page == p.number
  }

  predicate Named(f: Frame) {
    !f.free && f.name.Some?
  }

  function Key(f: Frame): PageId
    requires Named(f)
  {
    PageId(f.name.value, f.page)
  }

  /** The first frame holding page `p`, or -1. */
  function Lookup(fs: seq<Frame>, p: PageId): (r: int)
    ensures -1 <= r < |fs|
    ensures r >= 0 ==> Matches(fs[r], p) && forall j :: 0 <= j < r ==> !Matches(fs[j], p)
    ensures r < 0 ==> forall j :: 0 <= j < |fs| ==> !Matches(fs[j], p)
  {
    if fs == [] then -1
    else
      var r := Lookup(fs[..|fs| - 1], p);
      if r >= 0 then r
      else if Matches(fs[|fs| - 1], p) then |fs| - 1
      else assert forall j :: 0 <= j < |fs| - 1 ==> fs[..|fs| - 1][j] == fs[j]; -1
  }

  ghost predicate Unique(fs: seq<Frame>) {
    forall i, j :: 0 <= i < j < |fs| && Named(fs[i]) && Named(fs[j]) ==> Key(fs[i]) != Key(fs[j])
  }

  lemma LookupUnique(fs: seq<Frame>, i: nat, p: PageId)
    requires Unique(fs) && i < |fs| && Matches(fs[i], p)
    ensures Lookup(fs, p) == i
  {
    var r := Lookup(fs, p);
    assert Key(fs[r]) == p == Key(fs[i]);
  }

  /** Frames, RAM buffer and Storage's pages, seen as one value. */
  datatype Cache = Cache(frames: seq<Frame>, ram: seq<Byte>, pages: Pages, pageSize: nat) {

    // Every frame owns its own slice of the RAM buffer.
    ghost predicate Layout() {
      && pageSize > 0
      && (forall i :: 0 <= i < |frames| ==> frames[i].base + pageSize <= |ram|)
      && (forall i, j :: 0 <= i < j < |frames| ==> frames[i].base + pageSize <= frames[j].base)
    }

    function Bytes(i: nat): Page
      requires i < |frames| && frames[i].base + pageSize <= |ram|
    {
      ram[frames[i].base..frames[i].base + pageSize]
    }

    ghost predicate FrameOk(i: nat)
      requires Layout() && i < |frames|
    {
      var f := frames[i];
      && f.u <= 1 && f.m <= 1
      && (f.dirty <==> f.m == 1)
      && (f.dirty ==> Named(f))
      && (Named(f) ==> Key(f) in pages)
      && (Named(f) && !f.dirty ==> pages[Key(f)] == Bytes(i))
    }

    ghost predicate Valid() {
      && Layout()
      && Unique(frames)
      && (forall p :: p in pages ==> |pages[p]| == pageSize)
      && (forall i :: 0 <= i < |frames| ==> FrameOk(i))
    }

    /** The bytes a reader of page `p` must see: the resident frame's, else Storage's. */
    function ViewOf(p: PageId): Page
      requires Layout() && p in pages
    {
      var i := Lookup(frames, p);
      if i >= 0 then Bytes(i) else pages[p]
    }

    /** The flat store that the cache stands for. */
    function Flat(): (flat: Pages)
      requires Layout()
      ensures flat.Keys == pages.Keys
    {
      map p | p in pages :: ViewOf(p)
    }
  }

  lemma BitsOk(c: Cache)
    requires c.Valid()
    ensures forall i :: 0 <= i < |c.frames| ==> c.frames[i].u <= 1 && c.frames[i].m <= 1
  {
    forall i | 0 <= i < |c.frames| ensures c.frames[i].u <= 1 && c.frames[i].m <= 1 {
      assert c.FrameOk(i);
    }
  }

  // Two caches with the same pages, agreeing page by page, stand for the same flat store.
  lemma SameFlat(c: Cache, d: Cache)
    requires c.Layout() && d.Layout() && c.pages.Keys == d.pages.Keys
    requires forall p :: p in c.pages ==> c.ViewOf(p) == d.ViewOf(p)
    ensures c.Flat() == d.Flat()
  {
    assert forall p :: p in c.Flat() ==> c.Flat()[p] == c.ViewOf(p) == d.ViewOf(p) == d.Flat()[p];
  }

  // Fields that only matter for replacement.
  ghost predicate SamePage(f: Frame, g: Frame) {
    f.free == g.free && f.base == g.base && f.name == g.name && f.page == g.page
  }

  ghost predicate SamePages(fs: seq<Frame>, gs: seq<Frame>) {
    |fs| == |gs| && forall i :: 0 <= i < |fs| ==> SamePage(fs[i], gs[i])
  }

  lemma {:induction false} SameLookup(fs: seq<Frame>, gs: seq<Frame>, p: PageId)
    requires SamePages(fs, gs)
    ensures Lookup(fs, p) == Lookup(gs, p)
  {
    var r, s := Lookup(fs, p), Lookup(gs, p);
    if r >= 0 { assert Matches(gs[r], p); }
    if s >= 0 { assert Matches(fs[s], p); }
  }

  /** Changing use bits and timestamps, in any frames, changes nothing visible. */
  lemma Retouch(c: Cache, d: Cache)
    requires c.Valid()
    requires d == c.(frames := d.frames) && SamePages(c.frames, d.frames)
    requires forall i :: 0 <= i < |c.frames| ==>
               d.frames[i].dirty == c.frames[i].dirty && d.frames[i].m == c.frames[i].m
               && (d.frames[i].u <= 1 || d.frames[i].u == c.frames[i].u)
    ensures d.Valid() && d.Flat() == c.Flat()
  {
    RetouchedValid(c, d);
    assert c.Layout() && d.Layout();
    hide *;
    forall p | p in c.pages ensures c.ViewOf(p) == d.ViewOf(p) {
      RetouchedView(c, d, p);
    }
    SameFlat(c, d);
  }

  lemma RetouchedValid(c: Cache, d: Cache)
    requires c.Valid()
    requires d == c.(frames := d.frames) && SamePages(c.frames, d.frames)
    requires forall i :: 0 <= i < |c.frames| ==>
               d.frames[i].dirty == c.frames[i].dirty && d.frames[i].m == c.frames[i].m
               && (d.frames[i].u <= 1 || d.frames[i].u == c.frames[i].u)
    ensures d.Valid()
  {
    SameNames(c.frames, d.frames);
    assert d.Layout() by {
      assert forall i :: 0 <= i < |c.frames| ==> SamePage(c.frames[i], d.frames[i]);
    }
    forall i | 0 <= i < |d.frames| ensures d.FrameOk(i) {
      assert c.FrameOk(i) && SamePage(c.frames[i], d.frames[i]);
    }
  }

  lemma RetouchedView(c: Cache, d: Cache, p: PageId)
    requires c.Layout() && d.Layout() && d == c.(frames := d.frames) && SamePages(c.frames, d.frames) && p in c.pages
    ensures c.ViewOf(p) == d.ViewOf(p)
  {
    SameLookup(c.frames, d.frames, p);
    var i := Lookup(c.frames, p);
    if i >= 0 { assert SamePage(c.frames[i], d.frames[i]); }
  }

  /** Storage accepted the bytes of dirty frame `i`; the frame may still be marked dirty (`clean`
      false: the acknowledgement was lost) or be marked clean. Nothing visible changes. */
  lemma WriteBack(c: Cache, i: nat, clean: bool)
    requires c.Valid() && i < |c.frames| && c.frames[i].dirty && Named(c.frames[i])
    ensures var d := WrittenBack(c, i, clean); d.Valid() && d.Flat() == c.Flat()
  {
    WriteBackValid(c, i, clean);
    var d := WrittenBack(c, i, clean);
    assert c.FrameOk(i) && d.pages.Keys == c.pages.Keys;
    LookupUnique(c.frames, i, Key(c.frames[i]));
    forall p | p in c.pages ensures c.ViewOf(p) == d.ViewOf(p) {
      SameLookup(c.frames, d.frames, p);
    }
    SameFlat(c, d);
  }

  lemma WriteBackValid(c: Cache, i: nat, clean: bool)
    requires c.Valid() && i < |c.frames| && c.frames[i].dirty && Named(c.frames[i])
    ensures WrittenBack(c, i, clean).Valid() && SamePages(c.frames, WrittenBack(c, i, clean).frames)
  {
    var d := WrittenBack(c, i, clean);
    assert d.Layout();
    SameNames(c.frames, d.frames);
    forall j | 0 <= j < |d.frames| ensures d.FrameOk(j) {
      assert c.FrameOk(j);
      if j != i && Named(c.frames[j]) { DistinctKeys(c.frames, i, j); }
    }
  }

  lemma DistinctKeys(fs: seq<Frame>, i: nat, j: nat)
    requires Unique(fs) && i < |fs| && j < |fs| && i != j && Named(fs[i]) && Named(fs[j])
    ensures Key(fs[i]) != Key(fs[j])
  {
  }

  lemma SameNames(fs: seq<Frame>, gs: seq<Frame>)
    requires SamePages(fs, gs) && Unique(fs)
    ensures Unique(gs)
  {
    forall i, j | 0 <= i < j < |gs| && Named(gs[i]) && Named(gs[j]) ensures Key(gs[i]) != Key(gs[j]) {
      assert SamePage(fs[i], gs[i]) && SamePage(fs[j], gs[j]);
      DistinctKeys(fs, i, j);
    }
  }

  function WrittenBack(c: Cache, i: nat, clean: bool): Cache
    requires c.Layout() && i < |c.frames| && Named(c.frames[i])
  {
    c.(pages := c.pages[Key(c.frames[i]) := c.Bytes(i)],
       frames := if clean then c.frames[i := c.frames[i].(dirty := false, m := 0)] else c.frames)
  }

  // Unnaming frame `i` moves no page but its own.
  lemma ForgetFrames(fs: seq<Frame>, i: nat)
    requires Unique(fs) && i < |fs|
    ensures var gs := fs[i := fs[i].(name := None)];
            Unique(gs) && forall p :: Lookup(gs, p) == if Lookup(fs, p) == i then -1 else Lookup(fs, p)
  {
    var gs := fs[i := fs[i].(name := None)];
    assert Unique(gs) by {
      forall j, k | 0 <= j < k < |gs| && Named(gs[j]) && Named(gs[k]) ensures Key(gs[j]) != Key(gs[k]) {
        DistinctKeys(fs, j, k);
      }
    }
    forall p ensures Lookup(gs, p) == if Lookup(fs, p) == i then -1 else Lookup(fs, p) {
      var j, k := Lookup(fs, p), Lookup(gs, p);
      if k >= 0 {
        assert gs[k] == fs[k];
        LookupUnique(fs, k, p);
      }
      if j >= 0 && j != i {
        LookupUnique(gs, j, p);
      }
    }
  }

  /** Dropping the name of a clean frame loses nothing: Storage has the same bytes. */
  lemma Forget(c: Cache, i: nat)
    requires c.Valid() && i < |c.frames| && !c.frames[i].dirty
    ensures var d := c.(frames := c.frames[i := c.frames[i].(name := None)]); d.Valid() && d.Flat() == c.Flat()
  {
    var d := c.(frames := c.frames[i := c.frames[i].(name := None)]);
    ForgetFrames(c.frames, i);
    ForgetLayout(c, i);
    forall p | p in c.pages ensures c.ViewOf(p) == d.ViewOf(p) {
      if Lookup(c.frames, p) == i { assert c.FrameOk(i); }
    }
    SameFlat(c, d);
  }

  lemma ForgetLayout(c: Cache, i: nat)
    requires c.Valid() && i < |c.frames| && !c.frames[i].dirty
    requires Unique(c.frames[i := c.frames[i].(name := None)])
    ensures c.(frames := c.frames[i := c.frames[i].(name := None)]).Valid()
  {
    var d := c.(frames := c.frames[i := c.frames[i].(name := None)]);
    assert d.Layout();
    forall j | 0 <= j < |d.frames| ensures d.FrameOk(j) {
      assert c.FrameOk(j);
    }
  }

  // Layout looks at the length of the buffer and at where the frames are in it.
  lemma SameLayout(c: Cache, d: Cache)
    requires c.Layout() && |d.ram| == |c.ram| && d.pageSize == c.pageSize && |d.frames| == |c.frames|
    requires forall j :: 0 <= j < |c.frames| ==> d.frames[j].base == c.frames[j].base
    ensures d.Layout()
  {
  }

  lemma InsideBytes(c: Cache, d: Cache, i: nat, off: nat, data: seq<Byte>)
    requires c.Layout() && d.Layout() && i < |c.frames| && off + |data| <= c.pageSize
    requires d == c.(ram := Splice(c.ram, c.frames[i].base + off, data))
    ensures d.Bytes(i) == Splice(c.Bytes(i), off, data)
  {
    var lo, hi := c.frames[i].base, c.frames[i].base + c.pageSize;
    assert d.Bytes(i) == d.ram[lo..hi] && c.Bytes(i) == c.ram[lo..hi];
    SpliceInside(c.ram, lo + off, data, lo, hi);
    hide *;
  }

  lemma ApartBytes(c: Cache, d: Cache, i: nat, j: nat, off: nat, data: seq<Byte>)
    requires c.Layout() && d.Layout() && i < |c.frames| && j < |c.frames| && i != j && off + |data| <= c.pageSize
    requires d == c.(ram := Splice(c.ram, c.frames[i].base + off, data))
    ensures d.Bytes(j) == c.Bytes(j)
  {
    var lo, hi := c.frames[j].base, c.frames[j].base + c.pageSize;
    assert d.Bytes(j) == d.ram[lo..hi] && c.Bytes(j) == c.ram[lo..hi];
    assert hi <= c.frames[i].base || c.frames[i].base + c.pageSize <= lo;
    assert c.frames[i].base + c.pageSize <= |c.ram| && hi <= |c.ram|;
    hide *;
    SpliceOutside(c.ram, c.frames[i].base + off, data, lo, hi);
  }

  // Bytes of the other frames survive a write into the slice of frame `i`.
  lemma SpliceBytes(c: Cache, i: nat, off: nat, data: seq<Byte>)
    requires c.Layout() && i < |c.frames| && off + |data| <= c.pageSize
    ensures var at := c.frames[i].base + off; var d := c.(ram := Splice(c.ram, at, data));
            && d.Layout()
            && (forall j :: 0 <= j < |c.frames| && j != i ==> d.Bytes(j) == c.Bytes(j))
            && d.Bytes(i) == Splice(c.Bytes(i), off, data)
  {
    assert c.frames[i].base + c.pageSize <= |c.ram|;
    hide *;
    var at := c.frames[i].base + off;
    var d := c.(ram := Splice(c.ram, at, data));
    SpliceLength(c.ram, at, data);
    SameLayout(c, d);
    InsideBytes(c, d, i, off, data);
    forall j | 0 <= j < |c.frames| && j != i ensures d.Bytes(j) == c.Bytes(j) {
      ApartBytes(c, d, i, j, off, data);
    }
  }

  // Only the slice of frame `i`, which names no page, may differ.
  lemma OthersKept(c: Cache, d: Cache, i: nat)
    requires c.Valid() && d.Layout() && d.frames == c.frames && d.pages == c.pages && d.pageSize == c.pageSize
    requires i < |c.frames| && !Named(c.frames[i])
    requires forall j :: 0 <= j < |c.frames| && j != i ==> d.Bytes(j) == c.Bytes(j)
    ensures d.Valid() && d.Flat() == c.Flat()
  {
    forall j | 0 <= j < |d.frames| ensures d.FrameOk(j) {
      assert c.FrameOk(j);
    }
    SameFlat(c, d);
  }

  /** Whatever lands in the slice of a frame that names no page (a read from Storage that broke off
      half way, say) is invisible. */
  lemma Scribble(c: Cache, i: nat, data: seq<Byte>)
    requires c.Valid() && i < |c.frames| && !Named(c.frames[i]) && |data| <= c.pageSize
    ensures var d := c.(ram := Splice(c.ram, c.frames[i].base, data)); d.Valid() && d.Flat() == c.Flat()
  {
    assert c.Layout();
    hide *;
    SpliceBytes(c, i, 0, data);
    OthersKept(c, c.(ram := Splice(c.ram, c.frames[i].base, data)), i);
  }

  function Loaded(f: Frame, p: PageId, now: nat): Frame {
    f.(free := false, name := Some(p.ft), page := p.number, dirty := false, u := 1, m := 0, lastUsed := now)
  }

  // Naming frame `i` with an absent page moves no other page.
  lemma LoadFrames(fs: seq<Frame>, i: nat, p: PageId, now: nat)
    requires Unique(fs) && i < |fs| && !Named(fs[i]) && Lookup(fs, p) < 0
    ensures var gs := fs[i := Loaded(fs[i], p, now)];
            Unique(gs) && Lookup(gs, p) == i && forall q :: q != p ==> Lookup(gs, q) == Lookup(fs, q)
  {
    var gs := fs[i := Loaded(fs[i], p, now)];
    forall j, k | 0 <= j < k < |gs| && Named(gs[j]) && Named(gs[k]) ensures Key(gs[j]) != Key(gs[k]) {
      if j == i {
        assert !Matches(fs[k], p);
      } else if k == i {
        assert !Matches(fs[j], p);
      }
    }
    LookupUnique(gs, i, p);
    forall q | q != p ensures Lookup(gs, q) == Lookup(fs, q) {
      var j := Lookup(fs, q);
      if j >= 0 {
        LookupUnique(gs, j, q);
      } else {
        assert forall k :: 0 <= k < |gs| && k != i ==> gs[k] == fs[k];
      }
    }
  }

  /** Filling an unnamed frame with a page of Storage that is not resident changes nothing visible. */
  lemma Load(c: Cache, i: nat, p: PageId, now: nat)
    requires c.Valid() && i < |c.frames| && !Named(c.frames[i])
    requires Lookup(c.frames, p) < 0 && p in c.pages
    ensures var d := c.(ram := Splice(c.ram, c.frames[i].base, c.pages[p]), frames := c.frames[i := Loaded(c.frames[i], p, now)]);
            d.Valid() && d.Flat() == c.Flat()
  {
    Scribble(c, i, c.pages[p]);
    SpliceBytes(c, i, 0, c.pages[p]);
    var b := c.(ram := Splice(c.ram, c.frames[i].base, c.pages[p]));
    assert b.Bytes(i) == c.pages[p];
    hide *;
    LoadedInPlace(b, i, p, now);
  }

  // The slice of frame `i` already holds the bytes of `p`.
  lemma LoadedInPlace(b: Cache, i: nat, p: PageId, now: nat)
    requires b.Valid() && i < |b.frames| && !Named(b.frames[i])
    requires Lookup(b.frames, p) < 0 && p in b.pages && b.Bytes(i) == b.pages[p]
    ensures var d := b.(frames := b.frames[i := Loaded(b.frames[i], p, now)]); d.Valid() && d.Flat() == b.Flat()
  {
    LoadFrames(b.frames, i, p, now);
    LoadedValid(b, i, p, now);
    var d := b.(frames := b.frames[i := Loaded(b.frames[i], p, now)]);
    assert b.Layout() && d.Layout() && forall j :: 0 <= j < |b.frames| ==> d.frames[j].base == b.frames[j].base;
    hide *;
    forall q | q in b.pages ensures b.ViewOf(q) == d.ViewOf(q) {
      LoadedView(b, d, i, p, q);
    }
    SameFlat(b, d);
  }

  lemma LoadedView(b: Cache, d: Cache, i: nat, p: PageId, q: PageId)
    requires b.Layout() && d.Layout() && d.ram == b.ram && d.pages == b.pages && d.pageSize == b.pageSize
    requires i < |b.frames| && |d.frames| == |b.frames| && forall j :: 0 <= j < |b.frames| ==> d.frames[j].base == b.frames[j].base
    requires p in b.pages && q in b.pages && b.Bytes(i) == b.pages[p] && Lookup(b.frames, p) < 0 && Lookup(d.frames, p) == i
    requires q != p ==> Lookup(d.frames, q) == Lookup(b.frames, q)
    ensures b.ViewOf(q) == d.ViewOf(q)
  {
  }

  lemma LoadedValid(b: Cache, i: nat, p: PageId, now: nat)
    requires b.Valid() && i < |b.frames| && p in b.pages && b.Bytes(i) == b.pages[p]
    requires Unique(b.frames[i := Loaded(b.frames[i], p, now)])
    ensures b.(frames := b.frames[i := Loaded(b.frames[i], p, now)]).Valid()
  {
    var d := b.(frames := b.frames[i := Loaded(b.frames[i], p, now)]);
    assert d.Layout();
    forall j | 0 <= j < |d.frames| ensures d.FrameOk(j) {
      assert b.FrameOk(j);
    }
  }

  /** Writing into the frame of page `p` changes exactly that page of the flat store. */
  lemma Store(c: Cache, i: nat, p: PageId, off: nat, data: seq<Byte>)
    requires c.Valid() && i < |c.frames| && Matches(c.frames[i], p) && off + |data| <= c.pageSize
    ensures p in c.Flat() && |c.Flat()[p]| == c.pageSize
    ensures var d := Stored(c, i, off, data);
            d.Valid() && d.Flat() == c.Flat()[p := Splice(c.Flat()[p], off, data)]
  {
    ResidentBytes(c, i, p);
    StoredValid(c, i, off, data);
    StoredPages(c, i, off, data);
    StoredBytes(c, i, off, data);
    assert c.Layout() && Unique(c.frames);
    hide *;
    StoredFlat(c, Stored(c, i, off, data), i, p, Splice(c.Bytes(i), off, data));
  }

  // The flat store has the bytes of the frame that holds p.
  lemma ResidentBytes(c: Cache, i: nat, p: PageId)
    requires c.Valid() && i < |c.frames| && Matches(c.frames[i], p)
    ensures Named(c.frames[i]) && p in c.pages && p in c.Flat() && c.Flat()[p] == c.Bytes(i) && |c.Bytes(i)| == c.pageSize
  {
    assert c.FrameOk(i) && Key(c.frames[i]) == p;
    LookupUnique(c.frames, i, p);
    assert c.Flat()[p] == c.ViewOf(p);
  }

  function Stored(c: Cache, i: nat, off: nat, data: seq<Byte>): Cache
    requires c.Layout() && i < |c.frames| && off + |data| <= c.pageSize
  {
    c.(ram := Splice(c.ram, c.frames[i].base + off, data),
       frames := c.frames[i := c.frames[i].(dirty := true, m := 1)])
  }

  lemma StoredFrameOk(c: Cache, d: Cache, i: nat, j: nat)
    requires c.Layout() && d.Layout() && d.pages == c.pages && d.pageSize == c.pageSize
    requires i < |c.frames| && j < |c.frames| && Named(c.frames[i]) && c.FrameOk(j)
    requires d.frames == c.frames[i := c.frames[i].(dirty := true, m := 1)] && (j != i ==> d.Bytes(j) == c.Bytes(j))
    ensures d.FrameOk(j)
  {
    hide Cache.Layout, Cache.Bytes;
  }

  // The bytes of a frame depend on the buffer and on where the frame is in it.
  lemma SameBytes(b: Cache, d: Cache, j: nat)
    requires b.Layout() && d.Layout() && d.ram == b.ram && d.pageSize == b.pageSize
    requires j < |d.frames| && j < |b.frames| && d.frames[j].base == b.frames[j].base
    ensures d.Bytes(j) == b.Bytes(j)
  {
  }

  lemma StoredPages(c: Cache, i: nat, off: nat, data: seq<Byte>)
    requires c.Layout() && i < |c.frames| && off + |data| <= c.pageSize
    ensures var d := Stored(c, i, off, data);
            && d.pages == c.pages && d.pageSize == c.pageSize && d.frames == c.frames[i := c.frames[i].(dirty := true, m := 1)]
            && d.ram == Splice(c.ram, c.frames[i].base + off, data) && SamePages(c.frames, d.frames)
            && forall j :: 0 <= j < |c.frames| ==> d.frames[j].base == c.frames[j].base
  {
    hide Splice;
  }

  lemma StoredBytes(c: Cache, i: nat, off: nat, data: seq<Byte>)
    requires c.Layout() && i < |c.frames| && off + |data| <= c.pageSize
    ensures var d := Stored(c, i, off, data);
            && d.Layout() && |d.frames| == |c.frames|
            && (forall j :: 0 <= j < |c.frames| && j != i ==> d.Bytes(j) == c.Bytes(j))
            && d.Bytes(i) == Splice(c.Bytes(i), off, data)
  {
    assert c.frames[i].base + c.pageSize <= |c.ram|;
    hide *;
    var d := Stored(c, i, off, data);
    var b := c.(ram := Splice(c.ram, c.frames[i].base + off, data));
    SpliceBytes(c, i, off, data);
    StoredPages(c, i, off, data);
    SameLayout(b, d);
    forall j | 0 <= j < |c.frames| ensures d.Bytes(j) == b.Bytes(j) {
      SameBytes(b, d, j);
    }
  }

  lemma StoredValid(c: Cache, i: nat, off: nat, data: seq<Byte>)
    requires c.Valid() && i < |c.frames| && Named(c.frames[i]) && off + |data| <= c.pageSize
    ensures Stored(c, i, off, data).Valid()
  {
    hide Splice, Cache.FrameOk, Cache.Layout, Cache.Bytes, Unique, SamePages, Stored;
    var d := Stored(c, i, off, data);
    StoredBytes(c, i, off, data);
    StoredPages(c, i, off, data);
    SameNames(c.frames, d.frames);
    forall j | 0 <= j < |d.frames| ensures d.FrameOk(j) {
      StoredFrameOk(c, d, i, j);
    }
  }

  lemma StoredView(c: Cache, d: Cache, i: nat, p: PageId, bytes: Page, q: PageId)
    requires c.Layout() && d.Layout() && d.pages == c.pages && SamePages(c.frames, d.frames)
    requires Unique(c.frames) && i < |c.frames| && Matches(c.frames[i], p) && q in c.pages
    requires d.Bytes(i) == bytes && forall j :: 0 <= j < |c.frames| && j != i ==> d.Bytes(j) == c.Bytes(j)
    ensures d.ViewOf(q) == if q == p then bytes else c.ViewOf(q)
  {
    LookupUnique(c.frames, i, p);
    SameLookup(c.frames, d.frames, q);
    hide Cache.Layout, Cache.Bytes, SamePages, Unique;
  }

  // Only frame `i`, which holds `p`, shows different bytes.
  lemma StoredFlat(c: Cache, d: Cache, i: nat, p: PageId, bytes: Page)
    requires c.Layout() && d.Layout() && d.pages == c.pages && SamePages(c.frames, d.frames)
    requires Unique(c.frames) && i < |c.frames| && Matches(c.frames[i], p) && p in c.pages
    requires d.Bytes(i) == bytes && forall j :: 0 <= j < |c.frames| && j != i ==> d.Bytes(j) == c.Bytes(j)
    ensures d.Flat() == c.Flat()[p := bytes]
  {
    forall q | q in c.pages ensures d.ViewOf(q) == if q == p then bytes else c.ViewOf(q) {
      StoredView(c, d, i, p, bytes, q);
    }
    hide Cache.Layout, Cache.Bytes, Cache.ViewOf, SamePages, Unique;
    assert forall q :: q in d.Flat() ==> d.Flat()[q] == d.ViewOf(q);
    assert forall q :: q in c.Flat() ==> c.Flat()[q] == c.ViewOf(q);
    var lhs, rhs := d.Flat(), c.Flat()[p := bytes];
    assert lhs.Keys == rhs.Keys;
    assert forall q :: q in lhs ==> lhs[q] == rhs[q];
  }
}
