/** What a fresh file system guarantees over every run of requests, and what DELETE makes of its counts. */
module StorageRuns {
  import opened Common
  import opened Arithmetic
  import opened BlockNames
  import opened Storage
  import opened StorageCounts
  import opened StorageBitmap
  import opened StorageLookups
  import opened StorageShape

  ghost predicate OnZero(blocks: seq<LogicalBlock>) {
    forall b :: 0 <= b < |blocks| ==> blocks[b].physical == BLOCK_ZERO
  }

  /** Every logical block and every entry of the hash index names block 0. */
  ghost predicate AllOnZero(d: Disk) {
    && (forall f, t :: 0 <= f < |d.files| && 0 <= t < |d.files[f].tags| ==> OnZero(d.files[f].tags[t].blocks))
    && (forall h :: h in d.index ==> d.index[h] == BLOCK_ZERO)
  }

  lemma {:induction false} GrowOnZero(blocks: seq<LogicalBlock>, space: Space, first: int, n: nat, bad: set<nat>)
    requires OnZero(blocks)
    ensures OnZero(Grow(blocks, space, first, n, bad).blocks)
  {
    if n > 0 {
      GrowOnZero(blocks, space, first, n - 1, bad);
      hide LeastFree, LogicalName;
    }
  }

  lemma {:induction false} ShrinkOnZero(blocks: seq<LogicalBlock>, space: Space, n: nat)
    requires OnZero(blocks)
    ensures OnZero(Shrink(blocks, space, n).blocks)
  {
    if n > 0 {
      ShrinkOnZero(blocks, space, n - 1);
      hide Drop;
    }
  }

  lemma {:induction false} CopyOnZero(blocks: seq<LogicalBlock>, space: Space, n: nat, bad: set<nat>)
    requires OnZero(blocks) && n <= |blocks|
    ensures OnZero(Copy(blocks, space, n, bad).blocks)
  {
    if n > 0 {
      CopyOnZero(blocks, space, n - 1, bad);
      hide Reference;
    }
  }

  // With everything on block 0 a COMMIT redirects nothing.
  lemma {:induction false} CommitOnZero(d: Deduped, n: nat, hashes: nat -> string)
    requires n <= |d.blocks| && OnZero(d.blocks) && forall h :: h in d.index ==> d.index[h] == BLOCK_ZERO
    ensures var c := CommitBlocks(d, n, hashes);
            c.blocks == d.blocks && c.space == d.space && forall h :: h in c.index ==> c.index[h] == BLOCK_ZERO
    ensures TargetsMarked(d, n, hashes)
  {
    if n > 0 {
      CommitOnZero(d, n - 1, hashes);
      hide Drop, Reference, Marked;
    }
  }

  lemma TruncateOnZero(d: Disk, bs: nat, file: string, tag: string, bytes: int, bad: set<nat>)
    requires bs > 0 && AllOnZero(d)
    ensures AllOnZero(Truncate(d, bs, file, tag, bytes, bad).1)
  {
    hide Grow, Shrink, UsedResized, BlockCount, Unsigned, OnZero;
    var at := Locate(d.files, file, tag);
    if at.Some? {
      var before := d.files[at.value.0].tags[at.value.1];
      var now, wanted := BlockCount(before.size, bs), BlockCount(bytes, bs);
      if wanted > now {
        GrowOnZero(before.blocks, d.space, now, wanted - now, bad);
      } else {
        ShrinkOnZero(before.blocks, d.space, now - wanted);
      }
    }
    hide Locate;
  }

  lemma CreateOnZero(d: Disk, file: string, tag: string)
    requires AllOnZero(d)
    ensures AllOnZero(Create(d, file, tag).1)
  {
    assert OnZero([]);
    hide FindFile, FindTag, OnZero;
  }

  lemma TagFileOnZero(d: Disk, file: string, tag: string, toFile: string, toTag: string, bad: set<nat>)
    requires AllOnZero(d)
    ensures AllOnZero(TagFile(d, file, tag, toFile, toTag, bad).1)
  {
    var at := Locate(d.files, file, tag);
    if at.Some? {
      var blocks := d.files[at.value.0].tags[at.value.1].blocks;
      CopyOnZero(blocks, d.space, |blocks|, bad);
    }
    hide Copy, Locate, FindFile, OnZero;
  }

  lemma CommitTagOnZero(d: Disk, file: string, tag: string, hashes: nat -> string)
    requires AllOnZero(d)
    ensures AllOnZero(Commit(d, file, tag, hashes).1) && CommitSafe(d, CommitTag(file, tag, hashes))
  {
    var at := Locate(d.files, file, tag);
    if at.Some? {
      var blocks := d.files[at.value.0].tags[at.value.1].blocks;
      CommitOnZero(Deduped(blocks, d.space, d.index), |blocks|, hashes);
    }
    hide CommitBlocks, Locate, OnZero, TargetsMarked;
  }

  lemma DeleteOnZero(d: Disk, file: string, tag: string)
    requires AllOnZero(d)
    ensures AllOnZero(Delete(d, file, tag))
  {
    hide Locate, OnZero, Discard;
  }

  lemma ServeOnZero(d: Disk, bs: nat, r: Request)
    requires bs > 0 && AllOnZero(d)
    ensures AllOnZero(Serve(d, bs, r).1) && CommitSafe(d, r)
  {
    if r.WritePage? {
      WriteVisible(d, bs, r);
      assert forall h :: h in Serve(d, bs, r).1.index ==> h in d.index && Serve(d, bs, r).1.index[h] == d.index[h] by {
        hide Locate, FindPhysical;
      }
    }
    hide Create, Truncate, TagFile, Commit, Delete, WriteBlock, OnZero;
    match r
    case CreateFile(file, tag) => CreateOnZero(d, file, tag);
    case TruncateFile(file, tag, bytes, bad) => TruncateOnZero(d, bs, file, tag, bytes, bad);
    case CopyTag(file, tag, toFile, toTag, bad) => TagFileOnZero(d, file, tag, toFile, toTag, bad);
    case CommitTag(file, tag, hashes) => CommitTagOnZero(d, file, tag, hashes);
    case DeleteTag(file, tag) => DeleteOnZero(d, file, tag);
    case WritePage(_, _, _, _, _, _) =>
  }

  predicate ZeroMarked(space: Space) {
    |space.bitmap| > 0 && space.bitmap[0]
  }

  lemma DropZero(space: Space, path: string)
    requires ZeroMarked(space)
    ensures ZeroMarked(Drop(space, path))
  {
    hide FindPhysical;
  }

  lemma {:induction false} GrowZero(blocks: seq<LogicalBlock>, space: Space, first: int, n: nat, bad: set<nat>)
    requires ZeroMarked(space)
    ensures ZeroMarked(Grow(blocks, space, first, n, bad).space)
  {
    if n > 0 {
      GrowZero(blocks, space, first, n - 1, bad);
      hide LeastFree, LogicalName;
    }
  }

  lemma {:induction false} ShrinkZero(blocks: seq<LogicalBlock>, space: Space, n: nat)
    requires ZeroMarked(space)
    ensures ZeroMarked(Shrink(blocks, space, n).space)
  {
    if n > 0 {
      ShrinkZero(blocks, space, n - 1);
      var w := Shrink(blocks, space, n - 1);
      if w.blocks != [] {
        DropZero(w.space, w.blocks[|w.blocks| - 1].physical);
      }
      hide ZeroMarked, Drop;
    }
  }

  lemma {:induction false} CopyZero(blocks: seq<LogicalBlock>, space: Space, n: nat, bad: set<nat>)
    requires ZeroMarked(space) && n <= |blocks|
    ensures ZeroMarked(Copy(blocks, space, n, bad).space)
  {
    if n > 0 {
      CopyZero(blocks, space, n - 1, bad);
      hide FindPhysical;
    }
  }

  lemma {:induction false} DiscardZero(space: Space, used: seq<nat>)
    requires ZeroMarked(space)
    ensures ZeroMarked(Discard(space, used))
    decreases |used|
  {
    if used != [] {
      var path := NumberedName(|space.physical|, used[|used| - 1]);
      DropZero(space, path);
      hide ZeroMarked, Drop;
      DiscardZero(Drop(space, path), used[..|used| - 1]);
    }
  }

  // Nothing ever clears the bit of block 0.
  lemma ServeZero(d: Disk, bs: nat, r: Request)
    requires bs > 0 && AllOnZero(d) && ZeroMarked(d.space)
    ensures ZeroMarked(Serve(d, bs, r).1.space)
  {
    match r
    case CreateFile(file, tag) => assert Create(d, file, tag).1.space == d.space;
    case TruncateFile(file, tag, bytes, bad) => TruncateZero(d, bs, file, tag, bytes, bad);
    case CopyTag(file, tag, _, _, bad) =>
      var at := Locate(d.files, file, tag);
      if at.Some? {
        var blocks := d.files[at.value.0].tags[at.value.1].blocks;
        CopyZero(blocks, d.space, |blocks|, bad);
      }
      hide Copy, Locate, FindFile;
    case CommitTag(file, tag, hashes) => CommitTagZero(d, file, tag, hashes);
    case DeleteTag(file, tag) =>
      var at := Locate(d.files, file, tag);
      if at.Some? {
        DiscardZero(d.space, d.files[at.value.0].tags[at.value.1].used);
      }
      hide Discard, Locate;
    case WritePage(_, _, _, _, _, _) => WriteVisible(d, bs, r);
  }

  lemma TruncateZero(d: Disk, bs: nat, file: string, tag: string, bytes: int, bad: set<nat>)
    requires bs > 0 && ZeroMarked(d.space)
    ensures ZeroMarked(Truncate(d, bs, file, tag, bytes, bad).1.space)
  {
    var at := Locate(d.files, file, tag);
    if at.Some? {
      var before := d.files[at.value.0].tags[at.value.1];
      var now, wanted := BlockCount(before.size, bs), BlockCount(bytes, bs);
      if wanted > now {
        GrowZero(before.blocks, d.space, now, wanted - now, bad);
      } else {
        ShrinkZero(before.blocks, d.space, now - wanted);
      }
    }
    hide Grow, Shrink, UsedResized, Locate, BlockCount;
  }

  lemma CommitTagZero(d: Disk, file: string, tag: string, hashes: nat -> string)
    requires AllOnZero(d)
    ensures Commit(d, file, tag, hashes).1.space == d.space
  {
    var at := Locate(d.files, file, tag);
    if at.Some? {
      var blocks := d.files[at.value.0].tags[at.value.1].blocks;
      CommitOnZero(Deduped(blocks, d.space, d.index), |blocks|, hashes);
    }
    hide CommitBlocks, Locate, OnZero, TargetsMarked;
  }

  /** No request of the run commits with a redirection to a free block. */
  ghost predicate CommitsSafe(d: Disk, bs: nat, requests: seq<Request>)
    requires bs > 0
    decreases |requests|
  {
    requests == [] || (CommitSafe(d, requests[0]) && CommitsSafe(Serve(d, bs, requests[0]).1, bs, requests[1..]))
  }

  lemma {:induction false} AllOnZeroRun(d: Disk, bs: nat, requests: seq<Request>)
    requires bs > 0 && AllOnZero(d) && ZeroMarked(d.space)
    ensures AllOnZero(After(d, bs, requests)) && ZeroMarked(After(d, bs, requests).space) && CommitsSafe(d, bs, requests)
    decreases |requests|
  {
    if requests != [] {
      ServeOnZero(d, bs, requests[0]);
      ServeZero(d, bs, requests[0]);
      hide AllOnZero, ZeroMarked, Serve, CommitSafe;
      AllOnZeroRun(Serve(d, bs, requests[0]).1, bs, requests[1..]);
    }
  }

  lemma FreshConserved(count: nat, bs: nat)
    requires count > 0
    ensures Conserved(FreshDisk(count, bs))
  {
    var d := FreshDisk(count, bs);
    var tags := d.files[0].tags;
    var blocks := tags[0].blocks;
    forall i | 0 <= i < count ensures d.space.physical[i].count == References(d.files, d.space.physical[i].path) {
      var path := PhysicalName(i);
      ZeroIsFirst(i);
      hide PhysicalName;
      assert blocks[..0] == [] && tags[..0] == [] && d.files[..0] == [];
      assert BlockRefs(blocks, path) == Count(blocks[..0], Names(path)) + (if path == BLOCK_ZERO then 1 else 0);
      assert TagRefs(tags, path) == TagRefs(tags[..0], path) + BlockRefs(blocks, path);
      assert References(d.files, path) == References(d.files[..0], path) + TagRefs(tags, path);
    }
  }

  lemma ZeroIsAll(d: Disk)
    requires Proper(d.space.physical) && AllOnZero(d) && ZeroMarked(d.space)
    ensures NamedIsMarked(d)
  {
    forall i | 0 <= i < |d.space.physical| && d.space.physical[i].path == BLOCK_ZERO ensures i == 0 {
      ZeroIsFirst(i);
    }
    hide PhysicalName;
    assert Marked(d.space, BLOCK_ZERO);
    forall f, t, b | 0 <= f < |d.files| && 0 <= t < |d.files[f].tags| && 0 <= b < |d.files[f].tags[t].blocks|
      ensures Marked(d.space, d.files[f].tags[t].blocks[b].physical)
    {
      assert OnZero(d.files[f].tags[t].blocks);
    }
  }

  /** From a fresh start, whatever sequence of CREATE, TRUNCATE, TAG, COMMIT, DELETE and WRITE follows, no
      block is free while named, no logical block ever leaves block 0, no COMMIT redirects to a free
      block, and the counts are right if and only if the DELETEs balance. */
  lemma FreshStartSafe(count: nat, bs: nat, requests: seq<Request>)
    requires count > 0 && bs > 0
    ensures var d := FreshDisk(count, bs);
            var r := After(d, bs, requests);
            && NamedIsMarked(r) && AllOnZero(r) && CommitsSafe(d, bs, requests)
            && (Conserved(r) <==> NothingLeaks(d, bs, requests))
  {
    var d := FreshDisk(count, bs);
    FreshConserved(count, bs);
    assert AllOnZero(d);
    AllOnZeroRun(d, bs, requests);
    RunSurplus(d, bs, requests, 0);
    hide *;
    ZeroIsAll(After(d, bs, requests));
    CountsRightIffNothingLeaked(d, bs, requests);
  }

  /** DELETE does leave counts wrong: create a tag, grow it to two blocks and delete it, and block 0 is
      counted once more than it is named, because the metadata lists it once. */
  lemma DeleteLeaks(count: nat, bs: nat, file: string, tag: string)
    requires count > 0 && 0 < bs && 2 * bs < U32 / 2 && TagOf(FreshDisk(count, bs).files, file, tag).None?
    ensures var grown := GrownToTwo(count, bs, file, tag);
            && Conserved(grown) && !Conserved(Delete(grown, file, tag))
            && |Delete(grown, file, tag).space.physical| > 0 && Surplus(Delete(grown, file, tag), 0) == 1
  {
    var d := FreshDisk(count, bs);
    var a := Create(d, file, tag).1;
    var grown := GrownToTwo(count, bs, file, tag);
    FreshConserved(count, bs);
    assert Proper(d.space.physical);
    CreateConserves(d, file, tag);
    TruncateConserves(a, bs, file, tag, 2 * bs, {});
    TwoBlocks(count, bs, file, tag);
    hide *;
    SameSurplusConserves(d, a);
    SameSurplusConserves(a, grown);
    DeleteSurplus(grown, file, tag, 0) by { ConservedProper(grown); }
    LeftOne(grown, file, tag);
  }

  function GrownToTwo(count: nat, bs: nat, file: string, tag: string): Disk
    requires count > 0 && bs > 0
  {
    Truncate(Create(FreshDisk(count, bs), file, tag).1, bs, file, tag, 2 * bs, {}).1
  }

  lemma ConservedProper(d: Disk)
    requires Conserved(d)
    ensures Proper(d.space.physical) && |d.space.physical| > 0
  {
  }

  lemma SameSurplusConserves(d: Disk, e: Disk)
    requires Conserved(d) && SameSurplus(d, e)
    ensures Conserved(e)
  {
    ConservedIsNoSurplus(d);
    ConservedIsNoSurplus(e);
    hide Conserved, Surplus, Proper;
  }

  lemma LeftOne(d: Disk, file: string, tag: string)
    requires Conserved(d) && Locate(d.files, file, tag).Some?
    requires var at := Locate(d.files, file, tag).value;
             Undiscarded(d.files[at.0].tags[at.1], 0) == 1
    requires Proper(Delete(d, file, tag).space.physical)
    requires var at := Locate(d.files, file, tag).value;
             |Delete(d, file, tag).space.physical| > 0 &&
             Surplus(Delete(d, file, tag), 0) == Surplus(d, 0) + Undiscarded(d.files[at.0].tags[at.1], 0)
    ensures Surplus(Delete(d, file, tag), 0) == 1 && !Conserved(Delete(d, file, tag))
  {
    ConservedIsNoSurplus(d);
    ConservedIsNoSurplus(Delete(d, file, tag));
    hide Delete, Surplus, Undiscarded, Locate, Proper, Conserved;
  }

  // The tag grown to two blocks: both on block 0, which its metadata lists once.
  lemma TwoBlocks(count: nat, bs: nat, file: string, tag: string)
    requires count > 0 && 0 < bs && 2 * bs < U32 / 2 && TagOf(FreshDisk(count, bs).files, file, tag).None?
    ensures var d := GrownToTwo(count, bs, file, tag);
            var at := Locate(d.files, file, tag);
            at.Some? && Undiscarded(d.files[at.value.0].tags[at.value.1], 0) == 1
  {
    var d := FreshDisk(count, bs);
    var a := Create(d, file, tag).1;
    CreateVisible(d, file, tag, file, tag);
    assert a.space == d.space && TagOf(a.files, file, tag) == Some(Tag(tag, 0, WorkInProgress, [], []));
    FreshFree(count, bs);
    var empty := Tag(tag, 0, WorkInProgress, [], []);
    EmptyGrows(empty, a.space, bs);
    var w := Resize(empty, a.space, 2 * bs, bs, {});
    var used := UsedResized(empty, a.space, 2 * bs, bs, {});
    assert Unsigned(2 * bs) % bs == 0 by { TwiceDivides(bs); }
    var at := Locate(a.files, file, tag).value;
    var done := empty.(blocks := w.blocks, used := used, size := 2 * bs);
    ListedOnce(done);
    hide Resize, UsedResized, Locate, FreshDisk, Create, Undiscarded;
    PutTagTagOf(a.files, at.0, at.1, done, file, tag);
  }

  lemma TwiceDivides(bs: nat)
    requires 0 < bs && 2 * bs < U32 / 2
    ensures Unsigned(2 * bs) == 2 * bs && (2 * bs) % bs == 0 && (2 * bs) / bs == 2
  {
    QuotientIs(2 * bs, bs, 2, 0);
  }

  lemma FreshFree(count: nat, bs: nat)
    requires count > 0
    ensures Count(FreshDisk(count, bs).space.bitmap, Free()) >= 2
  {
    CountTwo(FreshDisk(count, bs).space.bitmap, 1, 2, Free());
  }

  // Two blocks on block 0 that are listed once.
  lemma ListedOnce(tag: Tag)
    requires |tag.blocks| == 2 && OnZero(tag.blocks) && tag.used == [0]
    ensures Undiscarded(tag, 0) == 1
  {
    var b := tag.blocks;
    assert PhysicalName(0) == BLOCK_ZERO;
    assert b[..1] == [b[0]] && b[..1][..0] == [] && tag.used[..0] == [];
    assert Count(b[..1], Names(BLOCK_ZERO)) == 1;
    assert Count(tag.used, IsNumber(0)) == 1;
  }

  lemma EmptyGrows(empty: Tag, space: Space, bs: nat)
    requires empty.size == 0 && empty.blocks == [] && empty.used == [] && Count(space.bitmap, Free()) >= 2
    requires 0 < bs && 2 * bs < U32 / 2
    ensures var w := Resize(empty, space, 2 * bs, bs, {});
            !w.full && |w.blocks| == 2 && OnZero(w.blocks) && UsedResized(empty, space, 2 * bs, bs, {}) == [0]
  {
    TwiceDivides(bs);
    CountOf(2 * bs, bs);
    CountOf(0, bs);
    assert BlockCount(0, bs) == 0 && BlockCount(2 * bs, bs) == 2;
    GrowExact([], space, 0, 2, {});
    GrowOnZero([], space, 0, 2, {});
    hide BlockCount, Grow, NamedFrom, OnZero, Count;
  }

  lemma {:induction false} OnlyFirstTaken(n: nat)
    requires n > 0
    ensures Count(seq(n, i => i == 0), Free()) == n - 1
  {
    var bits := seq(n, i => i == 0);
    if n == 1 {
      assert bits == [true] && bits[..0] == [];
    } else {
      OnlyFirstTaken(n - 1);
      assert bits[..n - 1] == seq(n - 1, i => i == 0);
    }
  }

  // The bits of a fresh bitmap, and the blocks it can still give away.
  function FreshBits(count: nat): nat { (count + 7) / 8 * 8 }

  /** TRUNCATE does leave a tag with more blocks than its size counts: from a fresh start, create a tag and
      grow it to one block more than there are free bits. It returns -1 and the size stays 0, but the tag
      has taken every free block. */
  lemma TruncateOverfills(count: nat, bs: nat, file: string, tag: string)
    requires count > 0 && bs > 0 && FreshBits(count) * bs < U32 / 2 && TagOf(FreshDisk(count, bs).files, file, tag).None?
    ensures var a := Create(FreshDisk(count, bs), file, tag).1;
            var (rc, r) := Truncate(a, bs, file, tag, FreshBits(count) * bs, {});
            var left := TagOf(r.files, file, tag);
            && rc == -1 && left.Some? && left.value.size == 0 && left.value.status.WorkInProgress?
            && |left.value.blocks| == FreshBits(count) - 1 > 0 && !Shaped(left.value, bs)
  {
    var d := FreshDisk(count, bs);
    var a := Create(d, file, tag).1;
    var n := FreshBits(count);
    CreateVisible(d, file, tag, file, tag);
    FreshRoom(count, bs);
    CreateRoom(d, file, tag);
    hide *;
    Overfilled(a, bs, file, tag, n);
  }

  lemma FreshRoom(count: nat, bs: nat)
    requires count > 0
    ensures FreshBits(count) > 1 && Count(FreshDisk(count, bs).space.bitmap, Free()) == FreshBits(count) - 1
  {
    OnlyFirstTaken(FreshBits(count));
  }

  lemma CreateRoom(d: Disk, file: string, tag: string)
    ensures Create(d, file, tag).1.space == d.space
  {
    hide FindFile, FindTag;
  }

  // A new tag grown to n blocks when n - 1 bits are free.
  lemma Overfilled(a: Disk, bs: nat, file: string, tag: string, n: nat)
    requires bs > 0 && n > 1 && n * bs < U32 / 2 && Count(a.space.bitmap, Free()) == n - 1
    requires TagOf(a.files, file, tag) == Some(Tag(tag, 0, WorkInProgress, [], []))
    ensures var (rc, r) := Truncate(a, bs, file, tag, n * bs, {});
            var left := TagOf(r.files, file, tag);
            && rc == -1 && left.Some? && left.value.size == 0 && left.value.status.WorkInProgress?
            && |left.value.blocks| == n - 1 && !Shaped(left.value, bs)
  {
    var bytes := n * bs;
    MultipleDivides(n, bs);
    CountOf(bytes, bs);
    CountOf(0, bs);
    assert Shaped(Tag(tag, 0, WorkInProgress, [], []), bs) by { assert 0 / bs == 0; }
    hide Truncate, Locate, BlockCount, Unsigned, Count, Shaped;
    PlaceOf(a.files, file, tag);
    TruncateShape(a, bs, file, tag, bytes);
    TruncateVisible(a, bs, file, tag, bytes, {}, file, tag);
    TruncateKeepsPlace(a, bs, file, tag, bytes);
    PlaceOf(Truncate(a, bs, file, tag, bytes, {}).1.files, file, tag);
  }

  lemma PlaceOf(files: seq<File>, file: string, tag: string)
    ensures TagOf(files, file, tag) ==
            match Locate(files, file, tag)
            case None => None
            case Some((f, t)) => Some(files[f].tags[t])
  {
    hide Locate;
  }

  lemma MultipleDivides(n: nat, bs: nat)
    requires bs > 0 && n * bs < U32 / 2
    ensures Unsigned(n * bs) == n * bs && Unsigned(n * bs) % bs == 0 && (n * bs) / bs == n
  {
    QuotientIs(n * bs, bs, n, 0);
  }

  // A truncated tag stays where it is found.
  lemma TruncateKeepsPlace(d: Disk, bs: nat, file: string, tag: string, bytes: int)
    requires bs > 0 && Locate(d.files, file, tag).Some?
    ensures Locate(Truncate(d, bs, file, tag, bytes, {}).1.files, file, tag) == Locate(d.files, file, tag)
  {
    var at := Locate(d.files, file, tag);
    var (f, t) := at.value;
    var before := d.files[f].tags[t];
    var used := UsedResized(before, d.space, bytes, bs, {});
    var full := before.(blocks := Resize(before, d.space, bytes, bs, {}).blocks, used := used);
    PutTagTagOf(d.files, f, t, full, file, tag);
    PutTagTagOf(d.files, f, t, full.(size := bytes, used := if bytes == 0 then [] else used), file, tag);
    hide First, Resize, UsedResized, PutTag, Locate;
  }
}
