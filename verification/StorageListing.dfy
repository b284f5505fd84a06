/** The metadata's list of used blocks: what TRUNCATE makes of it, and why, from a fresh start, dropping one
    reference for each of its entries never takes a count below the logical blocks that name the block. */
module StorageListing {
  import opened Common
  import opened Arithmetic
  import opened BlockNames
  import opened Storage
  import opened StorageCounts
  import opened StorageLookups
  import opened StorageShape
  import opened StorageRuns

  // ---------- one TRUNCATE ----------

  // How often block i is listed.
  function Listings(used: seq<nat>, i: nat): nat { Count(used, IsNumber(i)) }

  lemma {:induction false} WithoutListings(used: seq<nat>, j: nat, i: nat)
    ensures Listings(Without(used, j), i) == if i == j then 0 else Listings(used, i)
  {
    if used != [] {
      var n := |used| - 1;
      WithoutListings(used[..n], j, i);
      var rest := Without(used[..n], j);
      if used[n] == j {
        assert rest + [] == rest;
      } else {
        CountAppend(rest, used[n], IsNumber(i));
      }
    }
  }

  // The count of block i, other than block 0, has come down to nothing.
  predicate Emptied(p: seq<Physical>, q: seq<Physical>, i: nat)
    requires i < |p| && i < |q|
  {
    i > 0 && p[i].count > 0 >= q[i].count
  }

  // What is known of block i after some blocks were removed.
  ghost predicate Shrunken(p: Space, used: seq<nat>, q: Space, left: seq<nat>, i: nat) {
    && Proper(p.physical) && Proper(q.physical) && i < |p.physical| == |q.physical| && |q.bitmap| == |p.bitmap|
    && q.physical[i].count <= p.physical[i].count
    && Listings(left, i) == (if Emptied(p.physical, q.physical, i) then 0 else Listings(used, i))
    && (i < |p.bitmap| ==> q.bitmap[i] == (p.bitmap[i] && !Emptied(p.physical, q.physical, i)))
  }

  lemma ShrunkenStart(p: Space, used: seq<nat>, i: nat)
    requires Proper(p.physical) && i < |p.physical|
    ensures Shrunken(p, used, p, used, i)
  {
    hide Proper, Listings;
  }

  lemma ShrunkenStep(p: Space, used: seq<nat>, q: Space, left: seq<nat>, path: string, i: nat)
    requires Shrunken(p, used, q, left, i)
    ensures var freed := Freed(q, path);
            Shrunken(p, used, Drop(q, path), if freed.None? then left else Without(left, freed.value), i)
  {
    DropProper(q, path);
    CountsAfter(q, path, i);
    OnlyOne(q.physical, path, i);
    var freed := Freed(q, path);
    if freed.Some? { WithoutListings(left, freed.value, i); }
    DropBit(q, path, i);
    hide Proper, FindPhysical, Drop, Listings, Without;
  }

  lemma DropProper(space: Space, path: string)
    requires Proper(space.physical)
    ensures Proper(Drop(space, path).physical) && |Drop(space, path).physical| == |space.physical|
  {
    hide PhysicalName, FindPhysical;
  }

  lemma DropBit(space: Space, path: string, i: nat)
    ensures |Drop(space, path).bitmap| == |space.bitmap|
    ensures i < |space.bitmap| ==> Drop(space, path).bitmap[i] == (space.bitmap[i] && Freed(space, path) != Some(i))
  {
    hide FindPhysical;
  }

  // One turn of the shrinking loop.
  lemma ShrinkUnfolds(blocks: seq<LogicalBlock>, space: Space, used: seq<nat>, n: nat)
    requires n > 0
    ensures var w := Shrink(blocks, space, n - 1);
            var u := UsedShrunk(blocks, space, used, n - 1);
            if w.blocks == [] then Shrink(blocks, space, n) == w && UsedShrunk(blocks, space, used, n) == u
            else
              var path := w.blocks[|w.blocks| - 1].physical;
              && Shrink(blocks, space, n).space == Drop(w.space, path)
              && UsedShrunk(blocks, space, used, n) == match Freed(w.space, path) { case None => u case Some(i) => Without(u, i) }
  {
    hide Drop, Freed, Without;
  }

  lemma {:induction false} ShrinkLists(blocks: seq<LogicalBlock>, space: Space, used: seq<nat>, n: nat, i: nat)
    requires Proper(space.physical) && i < |space.physical|
    ensures Shrunken(space, used, Shrink(blocks, space, n).space, UsedShrunk(blocks, space, used, n), i)
  {
    hide *;
    NothingShrunk(blocks, space, used);
    if n == 0 {
      ShrunkenStart(space, used, i);
    } else {
      ShrinkUnfolds(blocks, space, used, n);
      ShrinkLists(blocks, space, used, n - 1, i);
      var w := Shrink(blocks, space, n - 1);
      if w.blocks != [] {
        ShrunkenStep(space, used, w.space, UsedShrunk(blocks, space, used, n - 1), w.blocks[|w.blocks| - 1].physical, i);
      }
    }
  }

  // Growing counts on block 0 alone.
  lemma {:induction false} GrowEmptiesNone(blocks: seq<LogicalBlock>, space: Space, first: int, n: nat, bad: set<nat>, i: nat)
    requires i < |space.physical|
    ensures var after := Grow(blocks, space, first, n, bad).space;
            && |after.physical| == |space.physical| && (i > 0 ==> after.physical[i] == space.physical[i])
            && |after.bitmap| == |space.bitmap| && (i < |space.bitmap| && space.bitmap[i] ==> after.bitmap[i])
  {
    if n > 0 {
      GrowEmptiesNone(blocks, space, first, n - 1, bad, i);
      hide LeastFree, LogicalName;
    }
  }

  lemma GrownListings(used: seq<nat>, added: bool, i: nat)
    ensures Listings(UsedGrown(used, added), i) == if i == 0 && added && Listings(used, 0) == 0 then 1 else Listings(used, i)
  {
    CountAppend(used, 0, IsNumber(i));
    ListedIff(used, 0);
    hide Count;
  }

  lemma {:induction false} ListedIff(used: seq<nat>, i: nat)
    ensures i in used <==> Listings(used, i) > 0
  {
    if used != [] {
      var n := |used| - 1;
      ListedIff(used[..n], i);
      assert used == used[..n] + [used[n]];
    }
  }

  // How often TRUNCATE leaves block i listed, apart from the emptying of the list at the end.
  lemma ResizedListings(tag: Tag, space: Space, bytes: int, bs: nat, bad: set<nat>, i: nat)
    requires bs > 0 && Proper(space.physical) && i < |space.physical|
    ensures var w := Resize(tag, space, bytes, bs, bad);
            var left := UsedResized(tag, space, bytes, bs, bad);
            && |w.space.physical| == |space.physical| && |w.space.bitmap| == |space.bitmap|
            && (i < |space.bitmap| && space.bitmap[i] ==> (w.space.bitmap[i] <==> !Emptied(space.physical, w.space.physical, i)))
            && Listings(left, i) ==
               if i == 0 && |w.blocks| > |tag.blocks| && Listings(tag.used, 0) == 0 then 1
               else if Emptied(space.physical, w.space.physical, i) then 0
               else Listings(tag.used, i)
  {
    hide Grow, Shrink, UsedShrunk, UsedGrown, Listings, BlockCount, Proper;
    var now, wanted := BlockCount(tag.size, bs), BlockCount(bytes, bs);
    if wanted > now {
      var w := Grow(tag.blocks, space, now, wanted - now, bad);
      GrowEmptiesNone(tag.blocks, space, now, wanted - now, bad, i);
      GrownListings(tag.used, |w.blocks| > |tag.blocks|, i);
    } else {
      ShrinkLists(tag.blocks, space, tag.used, now - wanted, i);
      ShrinkExact(tag.blocks, space, now - wanted);
    }
  }

  /** TRUNCATE and the list: a truncation to 0 bytes that returns 0 empties it; otherwise block 0 is listed once
      after a growth that added a block, if it was not listed; a block that the shrinking freed is no longer
      listed; and every other listing is kept. The blocks freed are those, other than block 0, whose count came
      down to nothing. */
  lemma TruncateLists(d: Disk, bs: nat, file: string, tag: string, bytes: int, bad: set<nat>, i: nat)
    requires bs > 0 && Proper(d.space.physical) && i < |d.space.physical| && Locate(d.files, file, tag).Some?
    ensures var (f, t) := Locate(d.files, file, tag).value;
            var (rc, r) := Truncate(d, bs, file, tag, bytes, bad);
            && |r.files| == |d.files| && |r.files[f].tags| == |d.files[f].tags|
            && |r.space.physical| == |d.space.physical| && |r.space.bitmap| == |d.space.bitmap|
            && (i < |d.space.bitmap| && d.space.bitmap[i] ==> (r.space.bitmap[i] <==> !Emptied(d.space.physical, r.space.physical, i)))
            && var before, after := d.files[f].tags[t], r.files[f].tags[t];
               && (rc == 0 && bytes == 0 ==> after.used == [])
               && (rc != 0 || bytes != 0 ==>
                     Listings(after.used, i) ==
                     if i == 0 && |after.blocks| > |before.blocks| && Listings(before.used, 0) == 0 then 1
                     else if Emptied(d.space.physical, r.space.physical, i) then 0
                     else Listings(before.used, i))
  {
    var (f, t) := Locate(d.files, file, tag).value;
    ResizedListings(d.files[f].tags[t], d.space, bytes, bs, bad, i);
    hide Proper, Locate, Resize, UsedResized, Listings, Unsigned;
  }

  // ---------- runs ----------

  /** A tag as runs from a fresh start leave it: its list names block 0 alone, at most once, and only when the
      tag has a block; and its size stands for no more blocks than it has. */
  ghost predicate Backed(tag: Tag, bs: nat)
    requires bs > 0
  {
    && (tag.used == [] || (tag.used == [0] && tag.blocks != []))
    && 0 <= BlockCount(tag.size, bs) <= |tag.blocks|
  }

  ghost predicate AllBacked(d: Disk, bs: nat)
    requires bs > 0
  {
    forall f, t :: 0 <= f < |d.files| && 0 <= t < |d.files[f].tags| ==> Backed(d.files[f].tags[t], bs)
  }

  /** No link of the request fails, and a size is a 32-bit int; a negative one does not stand for a negative
      number of blocks, as it does with a BLOCK_SIZE of 1. */
  predicate Ordinary(r: Request, bs: nat) {
    match r
    case TruncateFile(_, _, bytes, bad) => bad == {} && Countable(bytes, bs)
    case CopyTag(_, _, _, _, bad) => bad == {}
    case _ => true
  }

  predicate Countable(bytes: int, bs: nat) {
    -(U32 / 2) <= bytes < U32 / 2 && (bs > 1 || bytes >= 0)
  }

  lemma {:induction false} AllNamed(blocks: seq<LogicalBlock>)
    requires OnZero(blocks)
    ensures BlockRefs(blocks, BLOCK_ZERO) == |blocks|
  {
    if blocks != [] { AllNamed(blocks[..|blocks| - 1]); }
  }

  // Deleting such a tag drops no more references than it has.
  lemma BackedLeaks(tag: Tag, bs: nat, i: nat)
    requires bs > 0 && Backed(tag, bs) && OnZero(tag.blocks)
    ensures Undiscarded(tag, i) >= 0
  {
    ZeroIsFirst(i);
    AllNamed(tag.blocks);
    assert tag.used != [] ==> tag.used[..0] == [];
    assert Count(tag.used, IsNumber(i)) == if i == 0 && tag.used != [] then 1 else 0;
    hide PhysicalName, BlockCount;
  }

  // On block 0 shrinking frees nothing.
  lemma {:induction false} ShrinkKeepsUsed(blocks: seq<LogicalBlock>, space: Space, used: seq<nat>, n: nat)
    requires OnZero(blocks) && Proper(space.physical)
    ensures UsedShrunk(blocks, space, used, n) == used
  {
    hide *;
    NothingShrunk(blocks, space, used);
    if n > 0 {
      ShrinkUnfolds(blocks, space, used, n);
      ShrinkKeepsUsed(blocks, space, used, n - 1);
      ShrinkOnZero(blocks, space, n - 1);
      ShrinkTracks(blocks, space, n - 1);
      var w := Shrink(blocks, space, n - 1);
      TracksProper(blocks, space.physical, w.blocks, w.space.physical);
      if w.blocks != [] { ZeroNotFreed(w.blocks, w.space); }
    }
  }

  lemma NothingShrunk(blocks: seq<LogicalBlock>, space: Space, used: seq<nat>)
    ensures UsedShrunk(blocks, space, used, 0) == used && Shrink(blocks, space, 0) == Work(blocks, space, false)
  {
  }

  lemma ZeroNotFreed(blocks: seq<LogicalBlock>, space: Space)
    requires Proper(space.physical) && OnZero(blocks) && blocks != []
    ensures Freed(space, blocks[|blocks| - 1].physical).None?
  {
    ZeroIsFirst(0);
    OnlyOne(space.physical, BLOCK_ZERO, 0);
    hide PhysicalName, FindPhysical;
  }

  // A size other than 0 that is a multiple of BLOCK_SIZE stands for at least one block.
  lemma PositiveCount(bytes: int, bs: nat)
    requires bs > 0 && Countable(bytes, bs) && Unsigned(bytes) % bs == 0
    ensures BlockCount(bytes, bs) >= if bytes == 0 then 0 else 1
  {
    if bs > 1 { NegativeCount(bytes, bs); } else { CountOf(bytes, bs); }
    assert Unsigned(bytes) > 0 || bytes == 0;
    DivMod(Unsigned(bytes), bs);
    hide Unsigned;
  }

  lemma StillBacked(tag: Tag, w: Work, left: seq<nat>, bytes: int, bs: nat)
    requires bs > 0 && Backed(tag, bs) && 0 <= BlockCount(bytes, bs)
    requires if w.full then |w.blocks| >= |tag.blocks| else |w.blocks| >= BlockCount(bytes, bs)
    requires left == [] || (left == [0] && (w.blocks != [] || (!w.full && bytes == 0)))
    ensures w.full ==> Backed(tag.(blocks := w.blocks, used := left), bs)
    ensures !w.full ==> Backed(tag.(blocks := w.blocks, used := if bytes == 0 then [] else left, size := bytes), bs)
  {
    hide BlockCount;
  }

  // TRUNCATE keeps a tag backed, on each of its exits.
  lemma ResizeBacked(tag: Tag, space: Space, bytes: int, bs: nat)
    requires bs > 0 && Proper(space.physical) && Backed(tag, bs) && OnZero(tag.blocks)
    requires Countable(bytes, bs) && Unsigned(bytes) % bs == 0
    ensures var w := Resize(tag, space, bytes, bs, {});
            var left := UsedResized(tag, space, bytes, bs, {});
            && (w.full ==> Backed(tag.(blocks := w.blocks, used := left), bs))
            && (!w.full ==> Backed(tag.(blocks := w.blocks, used := if bytes == 0 then [] else left, size := bytes), bs))
  {
    hide Grow, Shrink, UsedShrunk, UsedGrown, BlockCount, Backed, Unsigned, Proper, OnZero;
    var now, wanted := BlockCount(tag.size, bs), BlockCount(bytes, bs);
    PositiveCount(bytes, bs);
    if wanted > now {
      GrowBacked(tag, space, bytes, bs);
    } else {
      ShrinkBacked(tag, space, bytes, bs);
    }
  }

  lemma GrowBacked(tag: Tag, space: Space, bytes: int, bs: nat)
    requires bs > 0 && Backed(tag, bs) && BlockCount(bytes, bs) > BlockCount(tag.size, bs)
    ensures var now, wanted := BlockCount(tag.size, bs), BlockCount(bytes, bs);
            var w := Grow(tag.blocks, space, now, wanted - now, {});
            var left := UsedGrown(tag.used, |w.blocks| > |tag.blocks|);
            && (w.full ==> Backed(tag.(blocks := w.blocks, used := left), bs))
            && (!w.full ==> Backed(tag.(blocks := w.blocks, used := if bytes == 0 then [] else left, size := bytes), bs))
  {
    hide BlockCount, Grow, Grown, GoodNames, UsedGrown;
    var now, wanted := BlockCount(tag.size, bs), BlockCount(bytes, bs);
    var w := Grow(tag.blocks, space, now, wanted - now, {});
    GrowExact(tag.blocks, space, now, wanted - now, {});
    GrownBacked(tag, w, now, wanted, Count(space.bitmap, Free()));
    StillBacked(tag, w, UsedGrown(tag.used, |w.blocks| > |tag.blocks|), bytes, bs);
  }

  lemma ShrinkBacked(tag: Tag, space: Space, bytes: int, bs: nat)
    requires bs > 0 && Proper(space.physical) && Backed(tag, bs) && OnZero(tag.blocks)
    requires (if bytes == 0 then 0 else 1) <= BlockCount(bytes, bs) <= BlockCount(tag.size, bs)
    ensures var n := BlockCount(tag.size, bs) - BlockCount(bytes, bs);
            var w := Shrink(tag.blocks, space, n);
            var left := UsedShrunk(tag.blocks, space, tag.used, n);
            !w.full && Backed(tag.(blocks := w.blocks, used := if bytes == 0 then [] else left, size := bytes), bs)
  {
    hide BlockCount, Shrink, UsedShrunk, OnZero, Proper;
    var n := BlockCount(tag.size, bs) - BlockCount(bytes, bs);
    ShrinkExact(tag.blocks, space, n);
    ShrinkKeepsUsed(tag.blocks, space, tag.used, n);
    StillBacked(tag, Shrink(tag.blocks, space, n), tag.used, bytes, bs);
  }

  lemma GrownBacked(tag: Tag, w: Work, now: nat, wanted: nat, free: nat)
    requires now < wanted && now <= |tag.blocks| && (tag.used == [] || (tag.used == [0] && tag.blocks != []))
    requires Grown(tag.blocks, w, now, wanted - now, {}, free)
    ensures |w.blocks| >= |tag.blocks| && (!w.full ==> |w.blocks| >= wanted)
    ensures var used := UsedGrown(tag.used, |w.blocks| > |tag.blocks|);
            used == [] || (used == [0] && w.blocks != [])
  {
    assert |GoodNames(now, wanted - now, {})| == wanted - now;
    hide GoodNames, NamedFrom, Count;
  }

  lemma TruncateBacked(d: Disk, bs: nat, file: string, tag: string, bytes: int)
    requires bs > 0 && Proper(d.space.physical) && AllOnZero(d) && AllBacked(d, bs) && Countable(bytes, bs)
    ensures AllBacked(Truncate(d, bs, file, tag, bytes, {}).1, bs)
  {
    var at := Locate(d.files, file, tag);
    if at.Some? && Unsigned(bytes) % bs == 0 {
      ResizeBacked(d.files[at.value.0].tags[at.value.1], d.space, bytes, bs);
    }
    hide Resize, UsedResized, Locate, Unsigned, Backed, OnZero, Proper;
  }

  lemma AddTagBacked(files: seq<File>, g: nat, added: Tag, d: Disk, e: Disk, bs: nat)
    requires bs > 0 && g < |files| && AllBacked(d, bs) && Backed(added, bs) && e.files == AddTag(files, g, added)
    requires files == d.files || exists name :: files == d.files + [File(name, [])]
    ensures AllBacked(e, bs)
  {
    hide Backed;
  }

  lemma CopyBacked(d: Disk, bs: nat, file: string, tag: string, toFile: string, toTag: string)
    requires bs > 0 && AllBacked(d, bs)
    ensures AllBacked(TagFile(d, file, tag, toFile, toTag, {}).1, bs)
  {
    var at := Locate(d.files, file, tag);
    if at.Some? {
      var origin := d.files[at.value.0].tags[at.value.1];
      CopyLinks(origin.blocks, d.space, |origin.blocks|, {});
      AllLinked(origin.blocks, |origin.blocks|);
      assert origin.blocks[..|origin.blocks|] == origin.blocks;
      var added := Tag(toTag, origin.size, WorkInProgress, origin.blocks, origin.used);
      assert Backed(added, bs);
      var files := if FindFile(d.files, toFile).None? then d.files + [File(toFile, [])] else d.files;
      var g := FindFile(files, toFile);
      if g.Some? { AddTagBacked(files, g.value, added, d, TagFile(d, file, tag, toFile, toTag, {}).1, bs); }
    }
    hide Copy, Linked, Locate, FindFile, Backed, AllBacked, AddTag;
  }

  lemma CommitBacked(d: Disk, bs: nat, file: string, tag: string, hashes: nat -> string)
    requires bs > 0 && AllBacked(d, bs)
    ensures AllBacked(Commit(d, file, tag, hashes).1, bs)
  {
    hide CommitBlocks, Locate, BlockCount;
  }

  lemma CreateBacked(d: Disk, bs: nat, file: string, tag: string)
    requires bs > 0 && AllBacked(d, bs)
    ensures AllBacked(Create(d, file, tag).1, bs)
  {
    CountOf(0, bs);
    assert Backed(Tag(tag, 0, WorkInProgress, [], []), bs) by { assert 0 / bs == 0; }
    hide FindFile, Locate, Backed;
  }

  lemma DeleteBacked(d: Disk, bs: nat, file: string, tag: string)
    requires bs > 0 && AllBacked(d, bs)
    ensures AllBacked(Delete(d, file, tag), bs)
  {
    hide Locate, Discard, Backed;
  }

  lemma ServeBacked(d: Disk, bs: nat, r: Request)
    requires bs > 0 && Proper(d.space.physical) && AllOnZero(d) && AllBacked(d, bs) && Ordinary(r, bs)
    ensures AllBacked(Serve(d, bs, r).1, bs)
  {
    if r.WritePage? { WriteVisible(d, bs, r); }
    hide Create, Truncate, TagFile, Commit, Delete, WriteBlock, Backed, AllOnZero, Proper;
    match r
    case CreateFile(file, tag) => CreateBacked(d, bs, file, tag);
    case TruncateFile(file, tag, bytes, bad) => TruncateBacked(d, bs, file, tag, bytes);
    case CopyTag(file, tag, toFile, toTag, bad) => CopyBacked(d, bs, file, tag, toFile, toTag);
    case CommitTag(file, tag, hashes) => CommitBacked(d, bs, file, tag, hashes);
    case DeleteTag(file, tag) => DeleteBacked(d, bs, file, tag);
    case WritePage(_, _, _, _, _, _) =>
  }

  lemma BackedLeak(d: Disk, bs: nat, r: Request, i: nat)
    requires bs > 0 && AllOnZero(d) && AllBacked(d, bs)
    ensures Leak(d, r, i) >= 0
  {
    if r.DeleteTag? {
      var at := Locate(d.files, r.file, r.tag);
      if at.Some? { BackedLeaks(d.files[at.value.0].tags[at.value.1], bs, i); }
    }
    hide Locate, Backed, OnZero, Undiscarded;
  }

  lemma ServeSufficient(d: Disk, bs: nat, r: Request)
    requires bs > 0 && Sufficient(d) && AllOnZero(d) && AllBacked(d, bs)
    ensures Sufficient(Serve(d, bs, r).1)
  {
    var e := Serve(d, bs, r).1;
    ServeSurplus(d, bs, r, 0);
    forall i | 0 <= i < |e.space.physical| ensures Surplus(e, i) >= 0 {
      ServeSurplus(d, bs, r, i);
      BackedLeak(d, bs, r, i);
    }
    hide Serve, Surplus, Proper, AllOnZero, AllBacked, Leak;
  }

  lemma {:induction false} BackedRun(d: Disk, bs: nat, requests: seq<Request>)
    requires bs > 0 && Sufficient(d) && AllOnZero(d) && AllBacked(d, bs)
    requires forall k :: 0 <= k < |requests| ==> Ordinary(requests[k], bs)
    ensures Sufficient(After(d, bs, requests)) && AllBacked(After(d, bs, requests), bs)
    decreases |requests|
  {
    if requests != [] {
      ServeSufficient(d, bs, requests[0]);
      ServeOnZero(d, bs, requests[0]);
      ServeBacked(d, bs, requests[0]);
      hide Sufficient, AllOnZero, AllBacked, Serve, Ordinary;
      BackedRun(Serve(d, bs, requests[0]).1, bs, requests[1..]);
    }
  }

  lemma FreshBacked(count: nat, bs: nat)
    requires count > 0 && bs > 0
    ensures Sufficient(FreshDisk(count, bs)) && AllOnZero(FreshDisk(count, bs)) && AllBacked(FreshDisk(count, bs), bs)
  {
    var d := FreshDisk(count, bs);
    FreshConserved(count, bs);
    ConservedIsNoSurplus(d);
    OneBlockAtMost(bs);
    hide Conserved, Surplus, BlockCount, PhysicalName;
  }

  lemma OneBlockAtMost(bs: nat)
    requires bs > 0
    ensures 0 <= BlockCount(bs, bs) <= 1
  {
    if bs == 1 {
      CountOf(1, 1);
    } else {
      NegativeCount(bs, bs);
      assert Unsigned(bs) <= bs by {
        if bs < U32 { QuotientIs(bs, U32, 0, bs); }
      }
      QuotientBound(Unsigned(bs), bs, 2) by { MulMonotone(1, 2, bs); }
    }
    hide Unsigned;
  }

  /** No count is ever too small: from a fresh start, whatever sequence of CREATE, TRUNCATE, TAG, COMMIT, DELETE
      and WRITE follows, as long as no link fails (and with a BLOCK_SIZE of 1 no size is negative), every block
      counts at least as many references as there are logical blocks that name it, and what each tag's list
      names is block 0, at most once, and only while the tag has a block. */
  lemma NeverUndercounted(count: nat, bs: nat, requests: seq<Request>)
    requires count > 0 && bs > 0 && forall k :: 0 <= k < |requests| ==> Ordinary(requests[k], bs)
    ensures Sufficient(After(FreshDisk(count, bs), bs, requests)) && AllBacked(After(FreshDisk(count, bs), bs, requests), bs)
  {
    FreshBacked(count, bs);
    hide *;
    BackedRun(FreshDisk(count, bs), bs, requests);
  }

  // A tag grown by two blocks of which one could not be linked, then shrunk by one.
  function ShortTag(count: nat, bs: nat, file: string, tag: string): Disk
    requires count > 0 && bs > 0
  {
    Truncate(HalfLinked(count, bs, file, tag), bs, file, tag, bs, {}).1
  }

  function HalfLinked(count: nat, bs: nat, file: string, tag: string): Disk
    requires count > 0 && bs > 0
  {
    Truncate(Create(FreshDisk(count, bs), file, tag).1, bs, file, tag, 2 * bs, {1}).1
  }

  /** A link that fails can make a count too small: create a tag, grow it to two blocks while the second link
      fails, shrink it to one and delete it. The tag has no block left but still lists block 0, so block 0 is
      counted once less than it is named. */
  lemma FailedLinkUndercounts(count: nat, bs: nat, file: string, tag: string)
    requires count > 0 && 0 < bs && 2 * bs < U32 / 2 && TagOf(FreshDisk(count, bs).files, file, tag).None?
    ensures var short := ShortTag(count, bs, file, tag);
            && Conserved(short) && |Delete(short, file, tag).space.physical| > 0
            && Surplus(Delete(short, file, tag), 0) == -1 && !Sufficient(Delete(short, file, tag))
  {
    var d := FreshDisk(count, bs);
    var a := Create(d, file, tag).1;
    var b := HalfLinked(count, bs, file, tag);
    var short := ShortTag(count, bs, file, tag);
    FreshConserved(count, bs);
    ConservedProper(d);
    CreateConserves(d, file, tag);
    TruncateConserves(a, bs, file, tag, 2 * bs, {1});
    TruncateConserves(b, bs, file, tag, bs, {});
    HalfLinkedTag(count, bs, file, tag);
    TwiceDivides(bs);
    MultipleDivides(1, bs);
    CountOf(2 * bs, bs);
    CountOf(bs, bs);
    hide *;
    SameSurplusConserves(d, a);
    SameSurplusConserves(a, b);
    SameSurplusConserves(b, short);
    ConservedProper(b);
    ConservedProper(short);
    NoBlockListed(b, bs, file, tag, bs);
    DeleteSurplus(short, file, tag, 0);
    TooFew(short, file, tag);
  }

  lemma TooFew(d: Disk, file: string, tag: string)
    requires Conserved(d) && Locate(d.files, file, tag).Some?
    requires var at := Locate(d.files, file, tag).value;
             Undiscarded(d.files[at.0].tags[at.1], 0) == -1
    requires Proper(Delete(d, file, tag).space.physical)
    requires var at := Locate(d.files, file, tag).value;
             |Delete(d, file, tag).space.physical| > 0 &&
             Surplus(Delete(d, file, tag), 0) == Surplus(d, 0) + Undiscarded(d.files[at.0].tags[at.1], 0)
    ensures Surplus(Delete(d, file, tag), 0) == -1 && !Sufficient(Delete(d, file, tag))
  {
    ConservedIsNoSurplus(d);
    hide Delete, Surplus, Undiscarded, Locate, Proper, Conserved;
  }

  // What a truncation that returns 0 makes of the tag.
  lemma TruncatedTag(d: Disk, bs: nat, file: string, tag: string, bytes: int, bad: set<nat>)
    requires bs > 0 && Unsigned(bytes) % bs == 0 && bytes != 0
    requires TagOf(d.files, file, tag).Some? && TagOf(d.files, file, tag).value.status.WorkInProgress?
    requires !Resize(TagOf(d.files, file, tag).value, d.space, bytes, bs, bad).full
    ensures var before := TagOf(d.files, file, tag).value;
            var r := Truncate(d, bs, file, tag, bytes, bad).1;
            var w := Resize(before, d.space, bytes, bs, bad);
            var left := UsedResized(before, d.space, bytes, bs, bad);
            r.space == w.space && TagOf(r.files, file, tag) == Some(before.(blocks := w.blocks, used := left, size := bytes))
  {
    var (f, t) := Locate(d.files, file, tag).value;
    var before := d.files[f].tags[t];
    var left := UsedResized(before, d.space, bytes, bs, bad);
    var done := before.(blocks := Resize(before, d.space, bytes, bs, bad).blocks, used := left, size := bytes);
    PutTagTagOf(d.files, f, t, done, file, tag);
    hide First, Resize, UsedResized, PutTag, Locate, Unsigned;
  }

  lemma HalfLinkedTag(count: nat, bs: nat, file: string, tag: string)
    requires count > 0 && 0 < bs && 2 * bs < U32 / 2 && TagOf(FreshDisk(count, bs).files, file, tag).None?
    ensures var half := TagOf(HalfLinked(count, bs, file, tag).files, file, tag);
            && half.Some? && half.value.status.WorkInProgress? && half.value.size == 2 * bs
            && |half.value.blocks| == 1 && OnZero(half.value.blocks) && half.value.used == [0]
  {
    var d := FreshDisk(count, bs);
    var a := Create(d, file, tag).1;
    var empty := Tag(tag, 0, WorkInProgress, [], []);
    CreateVisible(d, file, tag, file, tag);
    CreateRoom(d, file, tag);
    FreshFree(count, bs);
    TwiceDivides(bs);
    HalfGrown(empty, a.space, bs);
    hide FreshDisk, Create, Truncate, Resize, UsedResized, Unsigned, TagOf, OnZero, Count;
    TruncatedTag(a, bs, file, tag, 2 * bs, {1});
  }

  lemma HalfGrown(empty: Tag, space: Space, bs: nat)
    requires empty.size == 0 && empty.blocks == [] && empty.used == [] && Count(space.bitmap, Free()) >= 2
    requires 0 < bs && 2 * bs < U32 / 2
    ensures var w := Resize(empty, space, 2 * bs, bs, {1});
            !w.full && |w.blocks| == 1 && OnZero(w.blocks) && UsedResized(empty, space, 2 * bs, bs, {1}) == [0]
  {
    TwiceDivides(bs);
    CountOf(2 * bs, bs);
    CountOf(0, bs);
    assert BlockCount(0, bs) == 0 && BlockCount(2 * bs, bs) == 2;
    GrowExact([], space, 0, 2, {1});
    GrowOnZero([], space, 0, 2, {1});
    assert |GoodNames(0, 1, {1})| == 1 && |GoodNames(0, 2, {1})| == 1;
    hide BlockCount, Grow, NamedFrom, OnZero, Count, GoodNames;
  }

  // A tag of one block that is truncated by at least one, but not to 0 bytes: none is left, and block 0 is listed.
  lemma NoBlockListed(b: Disk, bs: nat, file: string, tag: string, bytes: int)
    requires bs > 0 && bytes != 0 && Unsigned(bytes) % bs == 0 && Proper(b.space.physical)
    requires TagOf(b.files, file, tag).Some?
    requires var one := TagOf(b.files, file, tag).value;
             && one.status.WorkInProgress? && BlockCount(bytes, bs) < BlockCount(one.size, bs)
             && |one.blocks| == 1 && OnZero(one.blocks) && one.used == [0]
    ensures var at := Locate(Truncate(b, bs, file, tag, bytes, {}).1.files, file, tag);
            at.Some? && Undiscarded(Truncate(b, bs, file, tag, bytes, {}).1.files[at.value.0].tags[at.value.1], 0) == -1
  {
    var one := TagOf(b.files, file, tag).value;
    ShrunkToNone(one, b.space, bs, bytes);
    TruncatedTag(b, bs, file, tag, bytes, {});
    OnlyListed(one.(blocks := [], used := [0], size := bytes));
    PlaceOf(Truncate(b, bs, file, tag, bytes, {}).1.files, file, tag);
    hide *;
  }

  lemma ShrunkToNone(one: Tag, space: Space, bs: nat, bytes: int)
    requires bs > 0 && Proper(space.physical) && BlockCount(bytes, bs) < BlockCount(one.size, bs)
    requires |one.blocks| == 1 && OnZero(one.blocks) && one.used == [0]
    ensures var w := Resize(one, space, bytes, bs, {});
            !w.full && w.blocks == [] && UsedResized(one, space, bytes, bs, {}) == [0]
  {
    var n := BlockCount(one.size, bs) - BlockCount(bytes, bs);
    ShrinkExact(one.blocks, space, n);
    ShrinkKeepsUsed(one.blocks, space, one.used, n);
    hide BlockCount, Shrink, UsedShrunk, OnZero, Proper;
  }

  // With a BLOCK_SIZE of 1: a tag grown to one block, then truncated to -1 bytes.
  function OneBlock(count: nat, file: string, tag: string): Disk
    requires count > 0
  {
    Truncate(Create(FreshDisk(count, 1), file, tag).1, 1, file, tag, 1, {}).1
  }

  function NegativeTag(count: nat, file: string, tag: string): Disk
    requires count > 0
  {
    Truncate(OneBlock(count, file, tag), 1, file, tag, -1, {}).1
  }

  /** So does a negative size with a BLOCK_SIZE of 1. */
  lemma NegativeSizeUndercounts(count: nat, file: string, tag: string)
    requires count > 0 && TagOf(FreshDisk(count, 1).files, file, tag).None?
    ensures var short := NegativeTag(count, file, tag);
            && Conserved(short) && |Delete(short, file, tag).space.physical| > 0
            && Surplus(Delete(short, file, tag), 0) == -1 && !Sufficient(Delete(short, file, tag))
  {
    var d := FreshDisk(count, 1);
    var a := Create(d, file, tag).1;
    var b := OneBlock(count, file, tag);
    var short := NegativeTag(count, file, tag);
    FreshConserved(count, 1);
    ConservedProper(d);
    CreateConserves(d, file, tag);
    TruncateConserves(a, 1, file, tag, 1, {});
    TruncateConserves(b, 1, file, tag, -1, {});
    OneBlockTag(count, file, tag);
    CountOf(1, 1);
    assert BlockCount(-1, 1) == -1;
    hide *;
    SameSurplusConserves(d, a);
    SameSurplusConserves(a, b);
    SameSurplusConserves(b, short);
    ConservedProper(b);
    ConservedProper(short);
    NoBlockListed(b, 1, file, tag, -1);
    DeleteSurplus(short, file, tag, 0);
    TooFew(short, file, tag);
  }

  lemma OneBlockTag(count: nat, file: string, tag: string)
    requires count > 0 && TagOf(FreshDisk(count, 1).files, file, tag).None?
    ensures var one := TagOf(OneBlock(count, file, tag).files, file, tag);
            && one.Some? && one.value.status.WorkInProgress? && one.value.size == 1
            && |one.value.blocks| == 1 && OnZero(one.value.blocks) && one.value.used == [0]
  {
    var d := FreshDisk(count, 1);
    var a := Create(d, file, tag).1;
    var empty := Tag(tag, 0, WorkInProgress, [], []);
    CreateVisible(d, file, tag, file, tag);
    CreateRoom(d, file, tag);
    FreshFree(count, 1);
    OneGrown(empty, a.space);
    hide FreshDisk, Create, Truncate, Resize, UsedResized, TagOf, OnZero, Count;
    TruncatedTag(a, 1, file, tag, 1, {});
  }

  lemma OneGrown(empty: Tag, space: Space)
    requires empty.size == 0 && empty.blocks == [] && empty.used == [] && Count(space.bitmap, Free()) >= 2
    ensures var w := Resize(empty, space, 1, 1, {});
            !w.full && |w.blocks| == 1 && OnZero(w.blocks) && UsedResized(empty, space, 1, 1, {}) == [0]
  {
    CountOf(1, 1);
    CountOf(0, 1);
    assert BlockCount(0, 1) == 0 && BlockCount(1, 1) == 1;
    GrowExact([], space, 0, 1, {});
    GrowOnZero([], space, 0, 1, {});
    assert |GoodNames(0, 0, {})| == 0 && |GoodNames(0, 1, {})| == 1;
    hide BlockCount, Grow, NamedFrom, OnZero, Count, GoodNames;
  }

  lemma OnlyListed(tag: Tag)
    requires tag.blocks == [] && tag.used == [0]
    ensures Undiscarded(tag, 0) == -1
  {
    assert tag.used[..0] == [];
    assert Count(tag.used, IsNumber(0)) == 1;
  }
}
