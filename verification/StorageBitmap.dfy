/** The bitmap: no physical block is free while a logical block names it. */
module StorageBitmap {
  import opened Common
  import opened BlockNames
  import opened Storage
  import opened StorageCounts

  ghost predicate Covers(space: Space) {
    |space.physical| <= |space.bitmap| &&
    forall i :: 0 <= i < |space.physical| && space.physical[i].count > 0 ==> space.bitmap[i]
  }

  /** The physical block called `path`, if there is one, is not free. */
  ghost predicate Marked(space: Space, path: string) {
    forall i :: 0 <= i < |space.physical| && space.physical[i].path == path ==> i < |space.bitmap| && space.bitmap[i]
  }

  ghost predicate NamedIsMarked(d: Disk) {
    forall f, t, b :: 0 <= f < |d.files| && 0 <= t < |d.files[f].tags| && 0 <= b < |d.files[f].tags[t].blocks| ==>
      Marked(d.space, d.files[f].tags[t].blocks[b].physical)
  }

  lemma {:induction false} ReferenceFrom(files: seq<File>, f: nat, t: nat, path: string)
    requires f < |files| && t < |files[f].tags|
    ensures References(files, path) >= BlockRefs(files[f].tags[t].blocks, path)
  {
    if f == |files| - 1 {
      TagReferenceFrom(files[f].tags, t, path);
    } else {
      assert files[..|files| - 1][f] == files[f];
      ReferenceFrom(files[..|files| - 1], f, t, path);
    }
  }

  lemma {:induction false} TagReferenceFrom(tags: seq<Tag>, t: nat, path: string)
    requires t < |tags|
    ensures TagRefs(tags, path) >= BlockRefs(tags[t].blocks, path)
  {
    if t < |tags| - 1 {
      assert tags[..|tags| - 1][t] == tags[t];
      TagReferenceFrom(tags[..|tags| - 1], t, path);
    }
  }

  // A referenced path is named by some logical block.
  lemma {:induction false} ReferenceWitness(files: seq<File>, path: string) returns (f: nat, t: nat, b: nat)
    requires References(files, path) >= 1
    ensures f < |files| && t < |files[f].tags| && b < |files[f].tags[t].blocks| && files[f].tags[t].blocks[b].physical == path
  {
    var n := |files| - 1;
    if TagRefs(files[n].tags, path) >= 1 {
      f := n;
      t, b := TagWitness(files[n].tags, path);
    } else {
      f, t, b := ReferenceWitness(files[..n], path);
    }
  }

  lemma {:induction false} TagWitness(tags: seq<Tag>, path: string) returns (t: nat, b: nat)
    requires TagRefs(tags, path) >= 1
    ensures t < |tags| && b < |tags[t].blocks| && tags[t].blocks[b].physical == path
  {
    var n := |tags| - 1;
    if BlockRefs(tags[n].blocks, path) >= 1 {
      t := n;
      b := CountWitness(tags[n].blocks, Names(path));
    } else {
      t, b := TagWitness(tags[..n], path);
    }
  }

  // Where counts suffice, marking every counted block marks every named one.
  lemma CoversMarks(d: Disk)
    requires Sufficient(d) && Covers(d.space)
    ensures NamedIsMarked(d)
  {
    forall f, t, b | 0 <= f < |d.files| && 0 <= t < |d.files[f].tags| && 0 <= b < |d.files[f].tags[t].blocks|
      ensures Marked(d.space, d.files[f].tags[t].blocks[b].physical)
    {
      var path := d.files[f].tags[t].blocks[b].physical;
      CountPositive(d.files[f].tags[t].blocks, b, Names(path));
      ReferenceFrom(d.files, f, t, path);
      hide References, PhysicalName;
      forall i | 0 <= i < |d.space.physical| && d.space.physical[i].path == path ensures d.space.bitmap[i] {
        assert Surplus(d, i) >= 0;
      }
    }
  }

  /** With correct counts, "every block counted is marked" is exactly "no block is free while named". */
  lemma CoversIffNamedIsMarked(d: Disk)
    requires Conserved(d) && |d.space.physical| <= |d.space.bitmap|
    ensures Covers(d.space) <==> NamedIsMarked(d)
  {
    if Covers(d.space) {
      ConservedIsNoSurplus(d);
      CoversMarks(d);
    }
    if NamedIsMarked(d) {
      forall i | 0 <= i < |d.space.physical| && d.space.physical[i].count > 0 ensures d.space.bitmap[i] {
        var f, t, b := ReferenceWitness(d.files, d.space.physical[i].path);
        assert Marked(d.space, d.files[f].tags[t].blocks[b].physical);
      }
    }
  }

  lemma ExtendedCovers(w: Work, number: int, k: nat)
    requires Covers(w.space) && LeastFree(w.space.bitmap) == Some(k)
    ensures Covers(Extended(w, number, k).space)
  {
    hide LeastFree;
    LeastFreeIsLeast(w.space.bitmap);
  }

  lemma LeastFreeIsLeast(bitmap: seq<bool>)
    ensures LeastFree(bitmap).Some? && LeastFree(bitmap).value > 0 ==> bitmap[0]
  {
    FirstIsFirst(bitmap, Free());
  }

  lemma {:induction false} GrowCovers(blocks: seq<LogicalBlock>, space: Space, first: int, n: nat, bad: set<nat>)
    requires Covers(space)
    ensures Covers(Grow(blocks, space, first, n, bad).space)
  {
    if n > 0 {
      GrowCovers(blocks, space, first, n - 1, bad);
      var w := Grow(blocks, space, first, n - 1, bad);
      var k := LeastFree(w.space.bitmap);
      if k.Some? {
        ExtendedCovers(w, first + n - 1, k.value);
      }
      hide Covers, Extended, LeastFree;
    }
  }

  lemma DropCovers(space: Space, path: string)
    requires Covers(space)
    ensures Covers(Drop(space, path))
  {
    hide FindPhysical;
  }

  lemma {:induction false} ShrinkCovers(blocks: seq<LogicalBlock>, space: Space, n: nat)
    requires Covers(space)
    ensures Covers(Shrink(blocks, space, n).space)
  {
    if n > 0 {
      ShrinkCovers(blocks, space, n - 1);
      var w := Shrink(blocks, space, n - 1);
      if w.blocks != [] {
        DropCovers(w.space, w.blocks[|w.blocks| - 1].physical);
      }
      hide Covers, Drop;
    }
  }

  /** One more reference keeps the bitmap right if and only if the block is marked. */
  lemma ReferenceCovers(space: Space, path: string)
    requires Proper(space.physical) && Covers(space)
    requires forall i :: 0 <= i < |space.physical| ==> space.physical[i].count >= 0
    ensures Covers(Reference(space, path)) <==> Marked(space, path)
  {
    var r := Reference(space, path);
    forall i | 0 <= i < |space.physical|
      ensures r.physical[i].count == space.physical[i].count + (if space.physical[i].path == path then 1 else 0)
    {
      CountsAfter(space, path, i);
    }
    CountsAfter(space, path, 0);
    assert r.bitmap == space.bitmap;
    hide Reference, PhysicalName;
    if Covers(r) {
      assert forall i :: 0 <= i < |space.physical| && space.physical[i].path == path ==> r.physical[i].count > 0;
    }
  }

  lemma CopyNext(blocks: seq<LogicalBlock>, space: Space, n: nat, bad: set<nat>)
    requires n <= |blocks|
    ensures var w := Copy(blocks, space, n, bad);
            if n == 0 then w.space == space
            else
              var c := Copy(blocks, space, n - 1, bad);
              w == c || w.space == Reference(c.space, blocks[n - 1].physical)
  {
    hide Reference;
  }

  ghost predicate AllMarked(space: Space, blocks: seq<LogicalBlock>) {
    forall b :: 0 <= b < |blocks| ==> Marked(space, blocks[b].physical)
  }

  // The next copied block is marked where the copy has got to.
  lemma CopiedMarked(blocks: seq<LogicalBlock>, space: Space, n: nat, bad: set<nat>)
    requires Proper(space.physical) && AllMarked(space, blocks) && n < |blocks|
    requires Copy(blocks, space, n, bad).space.bitmap == space.bitmap
    ensures Marked(Copy(blocks, space, n, bad).space, blocks[n].physical)
  {
    CopyTracks(blocks, space, n, bad);
    var w := Copy(blocks, space, n, bad);
    hide *;
    TracksMarked([], space, w.blocks, w.space, blocks[n].physical);
  }

  lemma {:induction false} CopyCovers(blocks: seq<LogicalBlock>, space: Space, n: nat, bad: set<nat>)
    requires Proper(space.physical) && Covers(space) && n <= |blocks| && AllMarked(space, blocks)
    ensures Covers(Copy(blocks, space, n, bad).space)
    ensures Copy(blocks, space, n, bad).space.bitmap == space.bitmap
  {
    hide *;
    CopyNext(blocks, space, n, bad);
    if n > 0 {
      var c := Copy(blocks, space, n - 1, bad);
      CopyCovers(blocks, space, n - 1, bad);
      CopiedMarked(blocks, space, n - 1, bad);
      AddedMarked(c.space, blocks[n - 1].physical);
    }
  }

  lemma TracksMarked(from: seq<LogicalBlock>, a: Space, to: seq<LogicalBlock>, b: Space, path: string)
    requires Tracks(from, a.physical, to, b.physical) && a.bitmap == b.bitmap
    ensures Marked(a, path) <==> Marked(b, path)
  {
    hide BlockRefs, PhysicalName;
  }

  lemma AddedMarked(space: Space, path: string)
    requires Covers(space) && Marked(space, path)
    ensures Covers(Reference(space, path)) && Reference(space, path).bitmap == space.bitmap
  {
    hide FindPhysical;
  }

  /** Every count is at least the references coming from these blocks. */
  ghost predicate Backed(blocks: seq<LogicalBlock>, physical: seq<Physical>) {
    forall i :: 0 <= i < |physical| ==> physical[i].count >= BlockRefs(blocks, physical[i].path)
  }

  lemma TracksBacked(from: seq<LogicalBlock>, p: seq<Physical>, to: seq<LogicalBlock>, q: seq<Physical>)
    requires Tracks(from, p, to, q) && Backed(from, p)
    ensures Backed(to, q)
  {
    hide BlockRefs, PhysicalName;
  }

  // COMMIT redirects block i to a block that is not free, or does not redirect it.
  ghost predicate RedirectMarked(d: Deduped, i: nat, hash: string)
    requires i < |d.blocks|
  {
    hash in d.index && d.index[hash] != d.blocks[i].physical ==> Marked(d.space, d.index[hash])
  }

  lemma DropElsewhere(space: Space, path: string, other: string)
    requires Proper(space.physical) && path != other
    ensures Marked(Drop(space, path), other) <==> Marked(space, other)
  {
    var d := Drop(space, path);
    CountsAfter(space, path, 0);
    forall i | 0 <= i < |space.physical| ensures d.physical[i].path == space.physical[i].path {
      CountsAfter(space, path, i);
    }
    hide PhysicalName;
  }

  /** A block of a COMMIT keeps the bitmap right if and only if the index redirects it, if at all, to a
      block that is marked at that moment. */
  lemma CommitBlockCovers(d: Deduped, i: nat, hash: string)
    requires i < |d.blocks| && Proper(d.space.physical) && Covers(d.space) && Backed(d.blocks, d.space.physical)
    ensures Covers(CommitBlock(d, i, hash).space) <==> RedirectMarked(d, i, hash)
  {
    if hash in d.index && d.index[hash] != d.blocks[i].physical {
      var from, to := d.blocks[i].physical, d.index[hash];
      var s := Drop(d.space, from);
      DropCovers(d.space, from);
      DropElsewhere(d.space, from, to);
      DroppedCounts(d, i);
      ReferenceCovers(s, to);
    }
    hide Drop, Reference, Covers, Marked, Backed, Proper;
  }

  lemma DroppedCounts(d: Deduped, i: nat)
    requires i < |d.blocks| && Proper(d.space.physical) && Backed(d.blocks, d.space.physical)
    ensures var s := Drop(d.space, d.blocks[i].physical);
            Proper(s.physical) && forall k :: 0 <= k < |s.physical| ==> s.physical[k].count >= 0
  {
    var s := Drop(d.space, d.blocks[i].physical);
    CountsAfter(d.space, d.blocks[i].physical, 0);
    forall k | 0 <= k < |s.physical|
      ensures s.physical[k].count >= 0 && s.physical[k].path == d.space.physical[k].path
    {
      CountsAfter(d.space, d.blocks[i].physical, k);
      if d.space.physical[k].path == d.blocks[i].physical {
        CountPositive(d.blocks, i, Names(d.space.physical[k].path));
      }
    }
    hide Drop, PhysicalName;
  }

  /** Every redirection of a COMMIT goes to a block that is marked when it happens. */
  ghost predicate TargetsMarked(d: Deduped, n: nat, hashes: nat -> string)
    requires n <= |d.blocks|
  {
    n == 0 || (TargetsMarked(d, n - 1, hashes) && RedirectMarked(CommitBlocks(d, n - 1, hashes), n - 1, hashes(n - 1)))
  }

  lemma {:induction false} CommitCovers(d: Deduped, n: nat, hashes: nat -> string)
    requires Proper(d.space.physical) && Covers(d.space) && Backed(d.blocks, d.space.physical)
    requires n <= |d.blocks| && TargetsMarked(d, n, hashes)
    ensures Covers(CommitBlocks(d, n, hashes).space)
  {
    if n > 0 {
      CommitCovers(d, n - 1, hashes);
      CommitTracks(d, n - 1, hashes);
      var c := CommitBlocks(d, n - 1, hashes);
      TracksProper(d.blocks, d.space.physical, c.blocks, c.space.physical);
      TracksBacked(d.blocks, d.space.physical, c.blocks, c.space.physical);
      CommitBlockCovers(c, n - 1, hashes(n - 1));
      hide Covers, Tracks, Backed, Proper, CommitBlock, RedirectMarked;
    }
  }

  // The tag a request commits.
  ghost predicate CommitSafe(d: Disk, r: Request) {
    r.CommitTag? ==>
      var at := Locate(d.files, r.file, r.tag);
      at.Some? ==>
        var blocks := d.files[at.value.0].tags[at.value.1].blocks;
        d.files[at.value.0].tags[at.value.1].status.Committed? || TargetsMarked(Deduped(blocks, d.space, d.index), |blocks|, r.hashes)
  }

  lemma SufficientBacks(d: Disk, f: nat, t: nat)
    requires Sufficient(d) && f < |d.files| && t < |d.files[f].tags|
    ensures Backed(d.files[f].tags[t].blocks, d.space.physical)
  {
    forall i | 0 <= i < |d.space.physical|
      ensures d.space.physical[i].count >= BlockRefs(d.files[f].tags[t].blocks, d.space.physical[i].path)
    {
      assert Surplus(d, i) >= 0;
      ReferenceFrom(d.files, f, t, d.space.physical[i].path);
    }
    hide References, PhysicalName;
  }

  lemma TruncateCovers(d: Disk, bs: nat, file: string, tag: string, bytes: int, bad: set<nat>)
    requires bs > 0 && Covers(d.space)
    ensures Covers(Truncate(d, bs, file, tag, bytes, bad).1.space)
  {
    var at := Locate(d.files, file, tag);
    if at.Some? {
      var before := d.files[at.value.0].tags[at.value.1];
      var now, wanted := BlockCount(before.size, bs), BlockCount(bytes, bs);
      if wanted > now {
        GrowCovers(before.blocks, d.space, now, wanted - now, bad);
      } else {
        ShrinkCovers(before.blocks, d.space, now - wanted);
      }
    }
    hide Covers, Grow, Shrink, Locate, BlockCount, PutTag;
  }

  lemma TagFileCovers(d: Disk, file: string, tag: string, toFile: string, toTag: string, bad: set<nat>)
    requires Sufficient(d) && Covers(d.space)
    ensures Covers(TagFile(d, file, tag, toFile, toTag, bad).1.space)
  {
    var at := Locate(d.files, file, tag);
    if at.Some? {
      CoversMarks(d);
      var origin := d.files[at.value.0].tags[at.value.1];
      assert AllMarked(d.space, origin.blocks);
      CopyCovers(origin.blocks, d.space, |origin.blocks|, bad);
    }
    hide Covers, Copy, Locate, FindFile, AddTag, NamedIsMarked, Marked;
  }

  lemma CommitTagCovers(d: Disk, file: string, tag: string, hashes: nat -> string)
    requires Sufficient(d) && Covers(d.space) && CommitSafe(d, CommitTag(file, tag, hashes))
    ensures Covers(Commit(d, file, tag, hashes).1.space)
  {
    var at := Locate(d.files, file, tag);
    if at.Some? {
      var before := d.files[at.value.0].tags[at.value.1];
      if !before.status.Committed? {
        SufficientBacks(d, at.value.0, at.value.1);
        CommitCovers(Deduped(before.blocks, d.space, d.index), |before.blocks|, hashes);
      }
    }
    hide Covers, Locate, PutTag, CommitBlocks, TargetsMarked, Sufficient;
  }

  lemma {:induction false} DiscardCovers(space: Space, used: seq<nat>)
    requires Covers(space)
    ensures Covers(Discard(space, used))
    decreases |used|
  {
    if used != [] {
      var path := NumberedName(|space.physical|, used[|used| - 1]);
      DropCovers(space, path);
      hide Covers, Drop;
      DiscardCovers(Drop(space, path), used[..|used| - 1]);
    }
  }

  lemma ServeCovers(d: Disk, bs: nat, r: Request)
    requires bs > 0 && Sufficient(d) && Covers(d.space) && CommitSafe(d, r)
    ensures Covers(Serve(d, bs, r).1.space)
  {
    match r
    case CreateFile(file, tag) => assert Create(d, file, tag).1.space == d.space;
    case TruncateFile(file, tag, bytes, bad) => TruncateCovers(d, bs, file, tag, bytes, bad);
    case CopyTag(file, tag, toFile, toTag, bad) => TagFileCovers(d, file, tag, toFile, toTag, bad);
    case CommitTag(file, tag, hashes) => CommitTagCovers(d, file, tag, hashes);
    case DeleteTag(file, tag) =>
      var at := Locate(d.files, file, tag);
      if at.Some? {
        DiscardCovers(d.space, d.files[at.value.0].tags[at.value.1].used);
      }
      hide Covers, Discard, Locate;
    case WritePage(_, _, _, _, _, _) => IndexIrrelevant(d, bs, r, 0);
  }

  // The metadata of a deleted tag lists no physical block more often than the tag names it.
  ghost predicate DeleteSafe(d: Disk, r: Request) {
    forall i :: 0 <= i < |d.space.physical| ==> Leak(d, r, i) >= 0
  }

  lemma ServeSufficient(d: Disk, bs: nat, r: Request)
    requires bs > 0 && Sufficient(d) && DeleteSafe(d, r)
    ensures Sufficient(Serve(d, bs, r).1)
  {
    hide Serve, Leak, Surplus, Proper;
    ServeSurplus(d, bs, r, 0) by { ProperNotEmpty(d.space.physical); }
    var e := Serve(d, bs, r).1;
    forall i | 0 <= i < |d.space.physical| ensures Surplus(e, i) >= 0 && |e.space.physical| == |d.space.physical| {
      ServeSurplus(d, bs, r, i);
      assert Surplus(d, i) >= 0 && Leak(d, r, i) >= 0;
    }
    ProperNotEmpty(d.space.physical);
  }

  lemma ProperNotEmpty(physical: seq<Physical>)
    requires Proper(physical)
    ensures |physical| > 0
  {
  }

  ghost predicate Safe(d: Disk, bs: nat, requests: seq<Request>)
    requires bs > 0
    decreases |requests|
  {
    requests == [] ||
    (CommitSafe(d, requests[0]) && DeleteSafe(d, requests[0]) && Safe(Serve(d, bs, requests[0]).1, bs, requests[1..]))
  }

  /** Over any sequence of CREATE, TRUNCATE, TAG, WRITE, COMMITs that redirect to marked blocks, and
      DELETEs of tags whose metadata lists no block more often than they name it, no physical block is
      free in the bitmap while a logical block names it. */
  lemma {:induction false} NoBlockFreeWhileNamed(d: Disk, bs: nat, requests: seq<Request>)
    requires bs > 0 && Sufficient(d) && Covers(d.space) && Safe(d, bs, requests)
    ensures var r := After(d, bs, requests); Sufficient(r) && Covers(r.space) && NamedIsMarked(r)
    decreases |requests|
  {
    if requests != [] {
      ServeSufficient(d, bs, requests[0]);
      ServeCovers(d, bs, requests[0]);
      hide Sufficient, Covers, NamedIsMarked, Serve, CommitSafe, DeleteSafe;
      NoBlockFreeWhileNamed(Serve(d, bs, requests[0]).1, bs, requests[1..]);
    } else {
      CoversMarks(d);
    }
  }

  // What dropping a reference does to a mark.
  lemma DropMarks(space: Space, path: string, other: string)
    requires Proper(space.physical)
    ensures Marked(Drop(space, path), other) <==>
            Marked(space, other) && !(path == other && path != BLOCK_ZERO &&
              exists i :: 0 <= i < |space.physical| && space.physical[i].path == path && space.physical[i].count == 1)
  {
    if path != other {
      DropElsewhere(space, path, other);
    } else {
      var k := FindPhysical(space.physical, path);
      var r := Drop(space, path);
      forall i | 0 <= i < |space.physical| ensures space.physical[i].path == path <==> k == Some(i) {
        OnlyOne(space.physical, path, i);
      }
      hide FindPhysical, PhysicalName;
      if k.Some? {
        ZeroIsFirst(k.value);
        assert r.physical[k.value].path == path;
      }
    }
  }

  lemma NumberedMarks(space: Space, n: nat, i: nat)
    requires Proper(space.physical) && i < |space.physical|
    ensures Marked(Drop(space, NumberedName(|space.physical|, n)), PhysicalName(i)) <==>
            Marked(space, PhysicalName(i)) && !(n == i && i > 0 && space.physical[i].count == 1)
  {
    var path := NumberedName(|space.physical|, n);
    DropMarks(space, path, PhysicalName(i));
    ZeroIsFirst(i);
    assert PhysicalName(i) != "";
    forall k | 0 <= k < |space.physical| ensures space.physical[k].path == PhysicalName(i) <==> k == i {
      if PhysicalName(k) == PhysicalName(i) { PhysicalNamesDiffer(k, i); }
    }
    if n < |space.physical| && PhysicalName(n) == PhysicalName(i) {
      PhysicalNamesDiffer(n, i);
    }
    hide Drop, Marked, PhysicalName;
  }

  // Discarding frees a block other than block 0 when its entries reach its count, which must be positive.
  lemma {:induction false} DiscardMarks(space: Space, used: seq<nat>, i: nat)
    requires Proper(space.physical) && i < |space.physical|
    ensures Marked(Discard(space, used), PhysicalName(i)) <==>
            Marked(space, PhysicalName(i)) && !(i > 0 && 1 <= space.physical[i].count <= Count(used, IsNumber(i)))
    decreases |used|
  {
    if used != [] {
      var n := |used| - 1;
      NumberedMarks(space, used[n], i);
      NumberedDropProper(space, used[n]);
      NumberedDrop(space, used[n], i);
      hide Drop, Proper, NumberedName, Marked, PhysicalName;
      DiscardMarks(Drop(space, NumberedName(|space.physical|, used[n])), used[..n], i);
    }
  }

  // Deleting this tag frees physical block i.
  ghost predicate DeleteFrees(d: Disk, tag: Tag, i: nat)
    requires i < |d.space.physical|
  {
    i > 0 && 1 <= d.space.physical[i].count <= Count(tag.used, IsNumber(i))
  }

  /** The exact condition under which a DELETE leaves no block free while named: the metadata's list of the
      deleted tag does not reach the count of any block that is also named outside the tag. */
  lemma DeleteExact(d: Disk, file: string, tag: string)
    requires Proper(d.space.physical) && NamedIsMarked(d) && Locate(d.files, file, tag).Some?
    ensures var at := Locate(d.files, file, tag).value;
            var gone := d.files[at.0].tags[at.1];
            NamedIsMarked(Delete(d, file, tag)) <==>
            forall i :: 0 <= i < |d.space.physical| && References(d.files, d.space.physical[i].path) > BlockRefs(gone.blocks, d.space.physical[i].path) ==>
              !DeleteFrees(d, gone, i)
  {
    var at := Locate(d.files, file, tag).value;
    var gone := d.files[at.0].tags[at.1];
    var e := Delete(d, file, tag);
    hide *;
    if NamedIsMarked(e) {
      forall i | 0 <= i < |d.space.physical| && References(d.files, d.space.physical[i].path) > BlockRefs(gone.blocks, d.space.physical[i].path)
        ensures !DeleteFrees(d, gone, i)
      {
        StillNamed(d, file, tag, i);
      }
    }
    if forall i :: 0 <= i < |d.space.physical| && References(d.files, d.space.physical[i].path) > BlockRefs(gone.blocks, d.space.physical[i].path) ==>
         !DeleteFrees(d, gone, i) {
      KeptMarked(d, file, tag);
    }
  }

  // A block named outside the deleted tag and freed by the DELETE is free while named.
  lemma StillNamed(d: Disk, file: string, tag: string, i: nat)
    requires Proper(d.space.physical) && Locate(d.files, file, tag).Some? && NamedIsMarked(Delete(d, file, tag))
    requires i < |d.space.physical|
    requires var at := Locate(d.files, file, tag).value;
             References(d.files, d.space.physical[i].path) > BlockRefs(d.files[at.0].tags[at.1].blocks, d.space.physical[i].path)
    ensures var at := Locate(d.files, file, tag).value; !DeleteFrees(d, d.files[at.0].tags[at.1], i)
  {
    var at := Locate(d.files, file, tag).value;
    var e := Delete(d, file, tag);
    DeleteReferences(d, file, tag, d.space.physical[i].path);
    var f, t, b := ReferenceWitness(e.files, d.space.physical[i].path);
    assert Marked(e.space, e.files[f].tags[t].blocks[b].physical);
    DiscardMarks(d.space, d.files[at.0].tags[at.1].used, i);
    hide Locate, Discard, Marked, References, PhysicalName, RemoveTag;
  }

  lemma DiscardPaths(space: Space, used: seq<nat>, path: string)
    requires Proper(space.physical) && Marked(space, path)
    requires forall i :: 0 <= i < |space.physical| && space.physical[i].path == path ==>
               !(i > 0 && 1 <= space.physical[i].count <= Count(used, IsNumber(i)))
    ensures Marked(Discard(space, used), path)
  {
    var r := Discard(space, used);
    DiscardCounts(space, used, 0);
    forall i | 0 <= i < |r.physical| && r.physical[i].path == path ensures i < |r.bitmap| && r.bitmap[i] {
      DiscardCounts(space, used, i);
      DiscardMarks(space, used, i);
    }
    hide Discard, PhysicalName, Count;
  }

  // What is left after a DELETE was there before, and is named outside the deleted tag.
  lemma Remaining(d: Disk, file: string, tag: string, f: nat, t: nat, b: nat) returns (u: nat)
    requires Locate(d.files, file, tag).Some?
    requires var e := Delete(d, file, tag); f < |e.files| && t < |e.files[f].tags| && b < |e.files[f].tags[t].blocks|
    ensures var e := Delete(d, file, tag);
            f < |d.files| && u < |d.files[f].tags| && e.files[f].tags[t] == d.files[f].tags[u]
    ensures var path := Delete(d, file, tag).files[f].tags[t].blocks[b].physical;
            var at := Locate(d.files, file, tag).value;
            References(d.files, path) > BlockRefs(d.files[at.0].tags[at.1].blocks, path)
  {
    var at := Locate(d.files, file, tag).value;
    var e := Delete(d, file, tag);
    var path := e.files[f].tags[t].blocks[b].physical;
    CountPositive(e.files[f].tags[t].blocks, b, Names(path));
    ReferenceFrom(e.files, f, t, path);
    DeleteReferences(d, file, tag, path);
    u := if f == at.0 && t >= at.1 then t + 1 else t;
    hide Discard, References, Locate, Count;
  }

  lemma KeptMarked(d: Disk, file: string, tag: string)
    requires Proper(d.space.physical) && NamedIsMarked(d) && Locate(d.files, file, tag).Some?
    requires var at := Locate(d.files, file, tag).value;
             var gone := d.files[at.0].tags[at.1];
             forall i :: 0 <= i < |d.space.physical| && References(d.files, d.space.physical[i].path) > BlockRefs(gone.blocks, d.space.physical[i].path) ==>
               !DeleteFrees(d, gone, i)
    ensures NamedIsMarked(Delete(d, file, tag))
  {
    var at := Locate(d.files, file, tag).value;
    var gone := d.files[at.0].tags[at.1];
    var e := Delete(d, file, tag);
    assert e.space == Discard(d.space, gone.used);
    hide Discard, Marked, References, BlockRefs, Locate, Delete, Proper;
    forall f, t, b | 0 <= f < |e.files| && 0 <= t < |e.files[f].tags| && 0 <= b < |e.files[f].tags[t].blocks|
      ensures Marked(e.space, e.files[f].tags[t].blocks[b].physical)
    {
      var u := Remaining(d, file, tag, f, t, b);
      assert Marked(d.space, d.files[f].tags[u].blocks[b].physical);
      DiscardPaths(d.space, gone.used, e.files[f].tags[t].blocks[b].physical);
    }
  }

  /** Such a list can do harm: deleting a tag that lists block i without naming it, when one other
      reference is left, frees the block that reference names. */
  lemma DeleteFreesNamed(d: Disk, file: string, tag: string, i: nat, f: nat, t: nat, b: nat)
    requires Proper(d.space.physical) && 0 < i < |d.space.physical| <= |d.space.bitmap| && d.space.physical[i].count == 1
    requires var at := Locate(d.files, file, tag);
             at.Some? && d.files[at.value.0].tags[at.value.1].used == [i] && at.value != (f, t) && (at.value.0 == f ==> t < at.value.1)
    requires f < |d.files| && t < |d.files[f].tags| && b < |d.files[f].tags[t].blocks|
    requires d.files[f].tags[t].blocks[b].physical == PhysicalName(i)
    ensures !NamedIsMarked(Delete(d, file, tag))
  {
    var e := Delete(d, file, tag);
    OnlyOne(d.space.physical, PhysicalName(i), i);
    assert Discard(d.space, [i]) == Drop(d.space, PhysicalName(i)) by {
      assert [i][..0] == [];
      assert Discard(Drop(d.space, PhysicalName(i)), []) == Drop(d.space, PhysicalName(i));
    }
    hide PhysicalName, Locate, FindPhysical;
    assert !e.space.bitmap[i] && e.space.physical[i].path == d.space.physical[i].path;
    assert e.files[f].tags[t] == d.files[f].tags[t];
    assert !Marked(e.space, e.files[f].tags[t].blocks[b].physical);
  }
}
