/** Reference counts: every physical block counts exactly the logical blocks that name it. */
module StorageCounts {
  import opened Common
  import opened BlockNames
  import opened Storage

  function Names(path: string): LogicalBlock -> bool { (b: LogicalBlock) => b.physical == path }

  function BlockRefs(blocks: seq<LogicalBlock>, path: string): nat { Count(blocks, Names(path)) }

  function TagRefs(tags: seq<Tag>, path: string): nat {
    if tags == [] then 0 else TagRefs(tags[..|tags| - 1], path) + BlockRefs(tags[|tags| - 1].blocks, path)
  }

  /** How many logical blocks, over all files and tags, name the physical block `path`. */
  function References(files: seq<File>, path: string): nat {
    if files == [] then 0 else References(files[..|files| - 1], path) + TagRefs(files[|files| - 1].tags, path)
  }

  // The physical blocks are block0000, block0001, ...
  ghost predicate Proper(physical: seq<Physical>) {
    |physical| > 0 && forall i :: 0 <= i < |physical| ==> physical[i].path == PhysicalName(i)
  }

  ghost predicate Conserved(d: Disk) {
    Proper(d.space.physical) &&
    forall i :: 0 <= i < |d.space.physical| ==> d.space.physical[i].count == References(d.files, d.space.physical[i].path)
  }

  /** What a block's count has over the logical blocks that name it. */
  ghost function Surplus(d: Disk, i: nat): int
    requires i < |d.space.physical|
  {
    d.space.physical[i].count - References(d.files, d.space.physical[i].path)
  }

  /** No block is counted less than it is named. */
  ghost predicate Sufficient(d: Disk) {
    Proper(d.space.physical) && forall i :: 0 <= i < |d.space.physical| ==> Surplus(d, i) >= 0
  }

  /** Counts moved exactly as references did, so every surplus is what it was. */
  ghost predicate SameSurplus(d: Disk, e: Disk) {
    && Proper(d.space.physical) && Proper(e.space.physical) && |e.space.physical| == |d.space.physical|
    && forall i :: 0 <= i < |d.space.physical| ==> Surplus(e, i) == Surplus(d, i)
  }

  /** The counts moved from p to q exactly as the references of `from` to those of `to`. */
  ghost predicate Tracks(from: seq<LogicalBlock>, p: seq<Physical>, to: seq<LogicalBlock>, q: seq<Physical>) {
    && Proper(p) && |q| == |p|
    && forall i :: 0 <= i < |p| ==>
         q[i].path == p[i].path && q[i].count - p[i].count == BlockRefs(to, p[i].path) - BlockRefs(from, p[i].path)
  }

  lemma OnlyOne(physical: seq<Physical>, path: string, i: nat)
    requires Proper(physical) && i < |physical|
    ensures physical[i].path == path <==> FindPhysical(physical, path) == Some(i)
  {
    hide PhysicalName;
    var r := FindPhysical(physical, path);
    if physical[i].path == path {
      assert PhysicalName(r.value) == PhysicalName(i);
      PhysicalNamesDiffer(r.value, i);
    }
  }

  // Referencing or dropping `path` changes the count of that block alone.
  lemma CountsAfter(space: Space, path: string, i: nat)
    requires Proper(space.physical) && i < |space.physical|
    ensures |Reference(space, path).physical| == |space.physical| == |Drop(space, path).physical|
    ensures var p := space.physical[i];
            var one := if p.path == path then 1 else 0;
            && Reference(space, path).physical[i] == Physical(p.path, p.count + one)
            && Drop(space, path).physical[i] == Physical(p.path, p.count - one)
  {
    OnlyOne(space.physical, path, i);
    hide FindPhysical;
  }

  lemma ExtendedTracks(w: Work, number: int, k: nat)
    requires Proper(w.space.physical)
    ensures Tracks(w.blocks, w.space.physical, Extended(w, number, k).blocks, Extended(w, number, k).space.physical)
  {
    var added := LogicalBlock(LogicalName(number), BLOCK_ZERO);
    forall i | 0 <= i < |w.space.physical|
      ensures BlockRefs(w.blocks + [added], w.space.physical[i].path) == BlockRefs(w.blocks, w.space.physical[i].path) + (if i == 0 then 1 else 0)
    {
      CountAppend(w.blocks, added, Names(w.space.physical[i].path));
      ZeroIsFirst(i);
    }
    hide Count, LogicalName, PhysicalName;
  }

  lemma {:induction false} GrowTracks(blocks: seq<LogicalBlock>, space: Space, first: int, n: nat, bad: set<nat>)
    requires Proper(space.physical)
    ensures Tracks(blocks, space.physical, Grow(blocks, space, first, n, bad).blocks, Grow(blocks, space, first, n, bad).space.physical)
  {
    if n > 0 {
      GrowTracks(blocks, space, first, n - 1, bad);
      var w := Grow(blocks, space, first, n - 1, bad);
      TracksProper(blocks, space.physical, w.blocks, w.space.physical);
      var k := LeastFree(w.space.bitmap);
      if !w.full && k.Some? && n - 1 !in bad {
        ExtendedTracks(w, first + n - 1, k.value);
        var x := Extended(w, first + n - 1, k.value);
        TracksOn(blocks, space.physical, w.blocks, w.space.physical, x.blocks, x.space.physical);
      }
      hide Tracks, Extended, LeastFree, Proper;
    }
  }

  lemma ZeroIsFirst(i: nat)
    ensures PhysicalName(i) == BLOCK_ZERO <==> i == 0
  {
    assert PhysicalName(0) == BLOCK_ZERO;
    if PhysicalName(i) == BLOCK_ZERO {
      PhysicalNamesDiffer(i, 0);
    }
  }

  lemma TracksOn(from: seq<LogicalBlock>, p: seq<Physical>, mid: seq<LogicalBlock>, q: seq<Physical>, to: seq<LogicalBlock>, r: seq<Physical>)
    requires Tracks(from, p, mid, q) && Tracks(mid, q, to, r)
    ensures Tracks(from, p, to, r)
  {
    hide BlockRefs, PhysicalName;
  }

  lemma TracksProper(from: seq<LogicalBlock>, p: seq<Physical>, to: seq<LogicalBlock>, q: seq<Physical>)
    requires Tracks(from, p, to, q)
    ensures Proper(q)
  {
    hide BlockRefs, PhysicalName;
  }

  lemma DropTracks(blocks: seq<LogicalBlock>, space: Space)
    requires Proper(space.physical) && blocks != []
    ensures Tracks(blocks, space.physical, blocks[..|blocks| - 1], Drop(space, blocks[|blocks| - 1].physical).physical)
  {
    var last := blocks[|blocks| - 1];
    hide Drop, PhysicalName;
    CountsAfter(space, last.physical, 0);
    forall i | 0 <= i < |space.physical|
      ensures var q := Drop(space, last.physical).physical;
              |q| == |space.physical| && q[i].path == space.physical[i].path &&
              q[i].count - space.physical[i].count == BlockRefs(blocks[..|blocks| - 1], space.physical[i].path) - BlockRefs(blocks, space.physical[i].path)
    {
      CountsAfter(space, last.physical, i);
    }
  }

  lemma {:induction false} ShrinkTracks(blocks: seq<LogicalBlock>, space: Space, n: nat)
    requires Proper(space.physical)
    ensures Tracks(blocks, space.physical, Shrink(blocks, space, n).blocks, Shrink(blocks, space, n).space.physical)
  {
    if n > 0 {
      ShrinkTracks(blocks, space, n - 1);
      var w := Shrink(blocks, space, n - 1);
      TracksProper(blocks, space.physical, w.blocks, w.space.physical);
      if w.blocks != [] {
        DropTracks(w.blocks, w.space);
        TracksOn(blocks, space.physical, w.blocks, w.space.physical, w.blocks[..|w.blocks| - 1], Drop(w.space, w.blocks[|w.blocks| - 1].physical).physical);
      }
      hide Tracks, Drop, Proper;
    }
  }

  lemma ReferenceTracks(blocks: seq<LogicalBlock>, space: Space, b: LogicalBlock)
    requires Proper(space.physical)
    ensures Tracks(blocks, space.physical, blocks + [b], Reference(space, b.physical).physical)
  {
    hide Reference, PhysicalName;
    CountsAfter(space, b.physical, 0);
    forall i | 0 <= i < |space.physical|
      ensures var q := Reference(space, b.physical).physical;
              |q| == |space.physical| && q[i].path == space.physical[i].path &&
              q[i].count - space.physical[i].count == BlockRefs(blocks + [b], space.physical[i].path) - BlockRefs(blocks, space.physical[i].path)
    {
      CountsAfter(space, b.physical, i);
      CountAppend(blocks, b, Names(space.physical[i].path));
    }
  }

  lemma {:induction false} CopyTracks(blocks: seq<LogicalBlock>, space: Space, n: nat, bad: set<nat>)
    requires Proper(space.physical) && n <= |blocks|
    ensures Tracks([], space.physical, Copy(blocks, space, n, bad).blocks, Copy(blocks, space, n, bad).space.physical)
  {
    if n > 0 {
      CopyTracks(blocks, space, n - 1, bad);
      var w := Copy(blocks, space, n - 1, bad);
      TracksProper([], space.physical, w.blocks, w.space.physical);
      ReferenceTracks(w.blocks, w.space, blocks[n - 1]);
      if n - 1 !in bad {
        TracksOn([], space.physical, w.blocks, w.space.physical, w.blocks + [blocks[n - 1]], Reference(w.space, blocks[n - 1].physical).physical);
      }
      hide Tracks, Reference, Proper;
    }
  }

  // Moving block i from its physical block to another.
  lemma RedirectTracks(blocks: seq<LogicalBlock>, space: Space, i: nat, path: string)
    requires Proper(space.physical) && i < |blocks|
    ensures Tracks(blocks, space.physical, blocks[i := blocks[i].(physical := path)], Reference(Drop(space, blocks[i].physical), path).physical)
  {
    var to := blocks[i := blocks[i].(physical := path)];
    var d := Drop(space, blocks[i].physical);
    hide Reference, Drop, PhysicalName;
    CountsAfter(space, blocks[i].physical, 0);
    forall k | 0 <= k < |space.physical| ensures d.physical[k].path == space.physical[k].path {
      CountsAfter(space, blocks[i].physical, k);
    }
    CountsAfter(d, path, 0);
    forall k | 0 <= k < |space.physical|
      ensures var q := Reference(d, path).physical;
              |q| == |space.physical| && q[k].path == space.physical[k].path &&
              q[k].count - space.physical[k].count == BlockRefs(to, space.physical[k].path) - BlockRefs(blocks, space.physical[k].path)
    {
      CountsAfter(space, blocks[i].physical, k);
      CountsAfter(d, path, k);
      CountUpdate(blocks, i, blocks[i].(physical := path), Names(space.physical[k].path));
    }
  }

  lemma CommitBlockTracks(d: Deduped, i: nat, hash: string)
    requires Proper(d.space.physical) && i < |d.blocks|
    ensures Tracks(d.blocks, d.space.physical, CommitBlock(d, i, hash).blocks, CommitBlock(d, i, hash).space.physical)
  {
    if hash in d.index {
      RedirectTracks(d.blocks, d.space, i, d.index[hash]);
    }
    hide Reference, Drop, BlockRefs, PhysicalName;
  }

  lemma CommitNext(d: Deduped, n: nat, hashes: nat -> string)
    requires n <= |d.blocks|
    ensures CommitBlocks(d, n, hashes) == if n == 0 then d else CommitBlock(CommitBlocks(d, n - 1, hashes), n - 1, hashes(n - 1))
  {
    hide CommitBlock;
  }

  lemma TracksSelf(blocks: seq<LogicalBlock>, physical: seq<Physical>)
    requires Proper(physical)
    ensures Tracks(blocks, physical, blocks, physical)
  {
  }

  lemma {:induction false} CommitTracks(d: Deduped, n: nat, hashes: nat -> string)
    requires Proper(d.space.physical) && n <= |d.blocks|
    ensures Tracks(d.blocks, d.space.physical, CommitBlocks(d, n, hashes).blocks, CommitBlocks(d, n, hashes).space.physical)
  {
    hide Tracks, CommitBlock, CommitBlocks, Proper;
    CommitNext(d, n, hashes);
    if n == 0 {
      TracksSelf(d.blocks, d.space.physical);
    } else {
      var c := CommitBlocks(d, n - 1, hashes);
      var r := CommitBlock(c, n - 1, hashes(n - 1));
      CommitTracks(d, n - 1, hashes);
      TracksProper(d.blocks, d.space.physical, c.blocks, c.space.physical);
      CommitBlockTracks(c, n - 1, hashes(n - 1));
      TracksOn(d.blocks, d.space.physical, c.blocks, c.space.physical, r.blocks, r.space.physical);
    }
  }

  lemma ResizeTracks(tag: Tag, space: Space, bytes: int, bs: nat, bad: set<nat>)
    requires bs > 0 && Proper(space.physical)
    ensures var w := Resize(tag, space, bytes, bs, bad); Tracks(tag.blocks, space.physical, w.blocks, w.space.physical)
  {
    var now, wanted := BlockCount(tag.size, bs), BlockCount(bytes, bs);
    if wanted > now {
      GrowTracks(tag.blocks, space, now, wanted - now, bad);
    } else {
      ShrinkTracks(tag.blocks, space, now - wanted);
    }
    hide Tracks, Grow, Shrink, BlockCount;
  }

  lemma {:induction false} TagRefsUpdate(tags: seq<Tag>, t: nat, tag: Tag, path: string)
    requires t < |tags|
    ensures TagRefs(tags[t := tag], path) == TagRefs(tags, path) + BlockRefs(tag.blocks, path) - BlockRefs(tags[t].blocks, path)
  {
    var n := |tags| - 1;
    if t == n {
      assert tags[t := tag][..n] == tags[..n];
    } else {
      assert tags[t := tag][..n] == tags[..n][t := tag];
      TagRefsUpdate(tags[..n], t, tag, path);
    }
  }

  lemma {:induction false} ReferencesUpdate(files: seq<File>, f: nat, file: File, path: string)
    requires f < |files|
    ensures References(files[f := file], path) == References(files, path) + TagRefs(file.tags, path) - TagRefs(files[f].tags, path)
  {
    var n := |files| - 1;
    if f == n {
      assert files[f := file][..n] == files[..n];
    } else {
      assert files[f := file][..n] == files[..n][f := file];
      ReferencesUpdate(files[..n], f, file, path);
    }
  }

  lemma PutTagReferences(files: seq<File>, f: nat, t: nat, tag: Tag, path: string)
    requires f < |files| && t < |files[f].tags|
    ensures References(PutTag(files, f, t, tag), path) ==
            References(files, path) + BlockRefs(tag.blocks, path) - BlockRefs(files[f].tags[t].blocks, path)
  {
    ReferencesUpdate(files, f, files[f].(tags := files[f].tags[t := tag]), path);
    TagRefsUpdate(files[f].tags, t, tag, path);
  }

  lemma AddTagReferences(files: seq<File>, f: nat, tag: Tag, path: string)
    requires f < |files|
    ensures References(AddTag(files, f, tag), path) == References(files, path) + BlockRefs(tag.blocks, path)
  {
    var tags := files[f].tags + [tag];
    ReferencesUpdate(files, f, files[f].(tags := tags), path);
    assert tags[..|files[f].tags|] == files[f].tags;
  }

  lemma AddFileReferences(files: seq<File>, name: string, path: string)
    ensures References(files + [File(name, [])], path) == References(files, path)
  {
    assert (files + [File(name, [])])[..|files|] == files;
  }

  // Writing a tracked change of a tag back keeps every surplus.
  lemma PutTagConserves(d: Disk, f: nat, t: nat, tag: Tag, space: Space, index: map<string, string>)
    requires Proper(d.space.physical) && f < |d.files| && t < |d.files[f].tags|
    requires Tracks(d.files[f].tags[t].blocks, d.space.physical, tag.blocks, space.physical)
    ensures SameSurplus(d, Disk(PutTag(d.files, f, t, tag), space, index))
  {
    hide References, BlockRefs, PhysicalName;
    var e := Disk(PutTag(d.files, f, t, tag), space, index);
    forall i | 0 <= i < |d.space.physical| ensures Surplus(e, i) == Surplus(d, i) {
      PutTagReferences(d.files, f, t, tag, d.space.physical[i].path);
    }
  }

  /** CREATE moves no count and adds no reference. */
  lemma CreateConserves(d: Disk, file: string, tag: string)
    requires Proper(d.space.physical)
    ensures SameSurplus(d, Create(d, file, tag).1)
  {
    var files := d.files + [File(file, [])];
    var e := Create(d, file, tag).1;
    forall i | 0 <= i < |d.space.physical| ensures Surplus(e, i) == Surplus(d, i) {
      AddFileReferences(d.files, file, d.space.physical[i].path);
      if FindFile(files, file).Some? {
        AddTagReferences(files, FindFile(files, file).value, Tag(tag, 0, WorkInProgress, [], []), d.space.physical[i].path);
      }
    }
    hide References, PhysicalName, FindFile, FindTag;
  }

  /** TRUNCATE moves counts exactly as it moves references, on each of its exits. */
  lemma TruncateConserves(d: Disk, bs: nat, file: string, tag: string, bytes: int, bad: set<nat>)
    requires bs > 0 && Proper(d.space.physical)
    ensures SameSurplus(d, Truncate(d, bs, file, tag, bytes, bad).1)
  {
    var at := Locate(d.files, file, tag);
    if at.Some? {
      var (f, t) := at.value;
      var before := d.files[f].tags[t];
      ResizeTracks(before, d.space, bytes, bs, bad);
      var w := Resize(before, d.space, bytes, bs, bad);
      var used := UsedResized(before, d.space, bytes, bs, bad);
      PutTagConserves(d, f, t, before.(blocks := w.blocks, used := used), w.space, d.index);
      PutTagConserves(d, f, t, before.(blocks := w.blocks, used := if bytes == 0 then [] else used, size := bytes), w.space, d.index);
    }
    hide Proper, Tracks, Resize, UsedResized, Locate, PutTag, Surplus;
  }

  /** TAG likewise, with failed links. */
  lemma TagFileConserves(d: Disk, file: string, tag: string, toFile: string, toTag: string, bad: set<nat>)
    requires Proper(d.space.physical)
    ensures SameSurplus(d, TagFile(d, file, tag, toFile, toTag, bad).1)
  {
    var at := Locate(d.files, file, tag);
    if at.Some? {
      var origin := d.files[at.value.0].tags[at.value.1];
      var files := if FindFile(d.files, toFile).None? then d.files + [File(toFile, [])] else d.files;
      var w := Copy(origin.blocks, d.space, |origin.blocks|, bad);
      CopyTracks(origin.blocks, d.space, |origin.blocks|, bad);
      var g := FindFile(files, toFile);
      if g.Some? {
        AddTagConserves(d, files, g.value, Tag(toTag, origin.size, WorkInProgress, w.blocks, origin.used), w.space);
      }
    }
    hide Tracks, Copy, Locate, AddTag, FindFile, Proper, Surplus;
  }

  lemma AddTagConserves(d: Disk, files: seq<File>, g: nat, tag: Tag, space: Space)
    requires Proper(d.space.physical) && g < |files| && (files == d.files || exists name :: files == d.files + [File(name, [])])
    requires Tracks([], d.space.physical, tag.blocks, space.physical)
    ensures SameSurplus(d, Disk(AddTag(files, g, tag), space, d.index))
  {
    var e := Disk(AddTag(files, g, tag), space, d.index);
    forall i | 0 <= i < |d.space.physical| ensures Surplus(e, i) == Surplus(d, i) {
      var path := d.space.physical[i].path;
      AddTagReferences(files, g, tag, path);
      if files != d.files {
        var name :| files == d.files + [File(name, [])];
        AddFileReferences(d.files, name, path);
      }
      assert BlockRefs([], path) == 0;
    }
    hide References, PhysicalName;
  }

  /** COMMIT likewise, redirections included. */
  lemma CommitConserves(d: Disk, file: string, tag: string, hashes: nat -> string)
    requires Proper(d.space.physical)
    ensures SameSurplus(d, Commit(d, file, tag, hashes).1)
  {
    var at := Locate(d.files, file, tag);
    if at.Some? {
      var (f, t) := at.value;
      var before := d.files[f].tags[t];
      var c := CommitBlocks(Deduped(before.blocks, d.space, d.index), |before.blocks|, hashes);
      CommitTracks(Deduped(before.blocks, d.space, d.index), |before.blocks|, hashes);
      PutTagConserves(d, f, t, before.(status := Committed, blocks := c.blocks), c.space, c.index);
    }
    hide Proper, Tracks, CommitBlocks, Locate, PutTag, Surplus;
  }

  function IsNumber(i: nat): nat -> bool { (x: nat) => x == i }

  // Dropping the block of number n changes the count of that block alone.
  lemma NumberedDrop(space: Space, n: nat, i: nat)
    requires Proper(space.physical) && i < |space.physical|
    ensures var r := Drop(space, NumberedName(|space.physical|, n)).physical;
            |r| == |space.physical| && r[i] == Physical(space.physical[i].path, space.physical[i].count - if n == i then 1 else 0)
  {
    CountsAfter(space, NumberedName(|space.physical|, n), i);
    if n < |space.physical| && PhysicalName(n) == PhysicalName(i) {
      PhysicalNamesDiffer(n, i);
    }
    assert PhysicalName(i) != "";
    hide Drop, Reference;
  }

  lemma NumberedDropProper(space: Space, n: nat)
    requires Proper(space.physical)
    ensures Proper(Drop(space, NumberedName(|space.physical|, n)).physical)
    ensures |Drop(space, NumberedName(|space.physical|, n)).physical| == |space.physical|
  {
    hide PhysicalName, Drop;
    NumberedDrop(space, n, 0);
    var r := Drop(space, NumberedName(|space.physical|, n)).physical;
    forall i | 0 <= i < |r| ensures r[i].path == space.physical[i].path {
      NumberedDrop(space, n, i);
    }
  }

  // Discarding takes one off a count for each entry with its number.
  lemma {:induction false} DiscardCounts(space: Space, used: seq<nat>, i: nat)
    requires Proper(space.physical) && i < |space.physical|
    ensures var r := Discard(space, used).physical;
            && Proper(r) && |r| == |space.physical|
            && r[i] == Physical(space.physical[i].path, space.physical[i].count - Count(used, IsNumber(i)))
    decreases |used|
  {
    if used != [] {
      var n := |used| - 1;
      NumberedDropProper(space, used[n]);
      NumberedDrop(space, used[n], i);
      hide Drop, Proper, NumberedName;
      DiscardCounts(Drop(space, NumberedName(|space.physical|, used[n])), used[..n], i);
    }
  }

  lemma {:induction false} RemoveTagRefs(tags: seq<Tag>, t: nat, path: string)
    requires t < |tags|
    ensures TagRefs(tags[..t] + tags[t + 1..], path) == TagRefs(tags, path) - BlockRefs(tags[t].blocks, path)
  {
    var n := |tags| - 1;
    var rest := tags[..t] + tags[t + 1..];
    if t == n {
      assert rest == tags[..n];
    } else {
      assert rest[..n - 1] == tags[..n][..t] + tags[..n][t + 1..];
      assert rest[n - 1] == tags[n];
      RemoveTagRefs(tags[..n], t, path);
    }
  }

  lemma DeleteReferences(d: Disk, file: string, tag: string, path: string)
    requires Locate(d.files, file, tag).Some?
    ensures var at := Locate(d.files, file, tag).value;
            References(Delete(d, file, tag).files, path) == References(d.files, path) - BlockRefs(d.files[at.0].tags[at.1].blocks, path)
  {
    var (f, t) := Locate(d.files, file, tag).value;
    var tags := d.files[f].tags;
    RemoveTagRefs(tags, t, path);
    ReferencesUpdate(d.files, f, d.files[f].(tags := tags[..t] + tags[t + 1..]), path);
    hide References, TagRefs, BlockRefs, Discard, Locate;
  }

  // What deleting a tag leaves too much of block i: its references that the metadata does not list,
  // less the entries that stand for no reference.
  ghost function Undiscarded(tag: Tag, i: nat): int {
    BlockRefs(tag.blocks, PhysicalName(i)) - Count(tag.used, IsNumber(i))
  }

  /** DELETE takes one off a count for each entry of the metadata's list and removes all the tag's
      references: each surplus changes by exactly the difference. */
  lemma DeleteSurplus(d: Disk, file: string, tag: string, i: nat)
    requires Proper(d.space.physical) && i < |d.space.physical|
    ensures var e := Delete(d, file, tag);
            var at := Locate(d.files, file, tag);
            && Proper(e.space.physical) && |e.space.physical| == |d.space.physical|
            && Surplus(e, i) == Surplus(d, i) + if at.None? then 0 else Undiscarded(d.files[at.value.0].tags[at.value.1], i)
  {
    var at := Locate(d.files, file, tag);
    if at.Some? {
      DiscardCounts(d.space, d.files[at.value.0].tags[at.value.1].used, i);
      DeleteReferences(d, file, tag, d.space.physical[i].path);
    }
    hide References, BlockRefs, Discard, Count, PhysicalName, Locate, RemoveTag;
  }

  /** How much request r adds to the surplus of block i. */
  ghost function Leak(d: Disk, r: Request, i: nat): int {
    if !r.DeleteTag? then 0
    else
      match Locate(d.files, r.file, r.tag)
      case None => 0
      case Some((f, t)) => Undiscarded(d.files[f].tags[t], i)
  }

  lemma ServeSurplus(d: Disk, bs: nat, r: Request, i: nat)
    requires bs > 0 && Proper(d.space.physical) && i < |d.space.physical|
    ensures var e := Serve(d, bs, r).1;
            && Proper(e.space.physical) && |e.space.physical| == |d.space.physical|
            && Surplus(e, i) == Surplus(d, i) + Leak(d, r, i)
  {
    hide Proper, Surplus, Create, Truncate, TagFile, Commit, Delete, Undiscarded;
    match r
    case CreateFile(file, tag) => CreateConserves(d, file, tag);
    case TruncateFile(file, tag, bytes, bad) => TruncateConserves(d, bs, file, tag, bytes, bad);
    case CopyTag(file, tag, toFile, toTag, bad) => TagFileConserves(d, file, tag, toFile, toTag, bad);
    case CommitTag(file, tag, hashes) => CommitConserves(d, file, tag, hashes);
    case DeleteTag(file, tag) => DeleteSurplus(d, file, tag, i);
    case WritePage(file, tag, number, length, hash, ok) => IndexIrrelevant(d, bs, r, i);
  }

  lemma IndexIrrelevant(d: Disk, bs: nat, r: Request, i: nat)
    requires bs > 0 && r.WritePage? && i < |d.space.physical|
    ensures var e := Serve(d, bs, r).1; e.space == d.space && e.files == d.files && Surplus(e, i) == Surplus(d, i)
  {
    hide Locate, FindPhysical;
  }

  /** What a run of requests adds to the surplus of block i: the sum over its DELETEs. */
  ghost function Leaked(d: Disk, bs: nat, requests: seq<Request>, i: nat): int
    requires bs > 0
    decreases |requests|
  {
    if requests == [] then 0 else Leak(d, requests[0], i) + Leaked(Serve(d, bs, requests[0]).1, bs, requests[1..], i)
  }

  lemma {:induction false} RunSurplus(d: Disk, bs: nat, requests: seq<Request>, i: nat)
    requires bs > 0 && Proper(d.space.physical) && i < |d.space.physical|
    ensures var e := After(d, bs, requests);
            && Proper(e.space.physical) && |e.space.physical| == |d.space.physical|
            && Surplus(e, i) == Surplus(d, i) + Leaked(d, bs, requests, i)
    decreases |requests|
  {
    if requests != [] {
      ServeSurplus(d, bs, requests[0], i);
      hide Proper, Surplus, Serve, Leak;
      RunSurplus(Serve(d, bs, requests[0]).1, bs, requests[1..], i);
    }
  }

  lemma LeakedIsSurplus(d: Disk, bs: nat, requests: seq<Request>, i: nat)
    requires bs > 0 && Conserved(d) && i < |d.space.physical|
    ensures |After(d, bs, requests).space.physical| == |d.space.physical|
    ensures Surplus(After(d, bs, requests), i) == Leaked(d, bs, requests, i)
  {
    RunSurplus(d, bs, requests, i);
    hide Leaked, After, References, Proper;
  }

  /** Over the run every block's DELETEs balance. */
  ghost predicate NothingLeaks(d: Disk, bs: nat, requests: seq<Request>)
    requires bs > 0
  {
    forall i :: 0 <= i < |d.space.physical| ==> Leaked(d, bs, requests, i) == 0
  }

  lemma RightMeansNoLeak(d: Disk, bs: nat, requests: seq<Request>, i: nat)
    requires bs > 0 && Conserved(d) && Conserved(After(d, bs, requests)) && i < |d.space.physical|
    ensures Leaked(d, bs, requests, i) == 0
  {
    LeakedIsSurplus(d, bs, requests, i);
    hide After, Leaked, References;
  }

  lemma NoLeakMeansRight(d: Disk, bs: nat, requests: seq<Request>)
    requires bs > 0 && Conserved(d) && NothingLeaks(d, bs, requests)
    ensures Conserved(After(d, bs, requests))
  {
    var e := After(d, bs, requests);
    RunSurplus(d, bs, requests, 0);
    forall i | 0 <= i < |e.space.physical| ensures Surplus(e, i) == 0 {
      LeakedIsSurplus(d, bs, requests, i);
      assert Leaked(d, bs, requests, i) == 0;
    }
    hide *;
    ConservedIsNoSurplus(e);
  }

  /** From right counts, any run of CREATE, TRUNCATE, TAG, COMMIT, DELETE and WRITE (failed links and
      out-of-space exits included) ends with right counts if and only if what its DELETEs leave too much
      and take too much of each block sums to nothing. */
  lemma CountsRightIffNothingLeaked(d: Disk, bs: nat, requests: seq<Request>)
    requires bs > 0 && Conserved(d)
    ensures Conserved(After(d, bs, requests)) <==> NothingLeaks(d, bs, requests)
  {
    if Conserved(After(d, bs, requests)) {
      forall i | 0 <= i < |d.space.physical| ensures Leaked(d, bs, requests, i) == 0 {
        RightMeansNoLeak(d, bs, requests, i);
      }
    }
    hide Conserved, After, Leaked;
    if NothingLeaks(d, bs, requests) {
      NoLeakMeansRight(d, bs, requests);
    }
  }

  lemma ConservedIsNoSurplus(d: Disk)
    requires Proper(d.space.physical)
    ensures Conserved(d) <==> forall i :: 0 <= i < |d.space.physical| ==> Surplus(d, i) == 0
  {
    hide Proper, References;
    if forall i :: 0 <= i < |d.space.physical| ==> Surplus(d, i) == 0 {
      forall i | 0 <= i < |d.space.physical| ensures d.space.physical[i].count == References(d.files, d.space.physical[i].path) {
        assert Surplus(d, i) == 0;
      }
    }
  }

  lemma {:induction false} NothingLeaked(d: Disk, bs: nat, requests: seq<Request>, i: nat)
    requires bs > 0 && forall k :: 0 <= k < |requests| ==> !requests[k].DeleteTag?
    ensures Leaked(d, bs, requests, i) == 0
    decreases |requests|
  {
    if requests != [] {
      NothingLeaked(Serve(d, bs, requests[0]).1, bs, requests[1..], i);
    }
  }

  /** Any sequence of CREATE, TRUNCATE, TAG, COMMIT and WRITE keeps every count equal to the number of
      logical blocks, over all files and tags, that name the block. */
  lemma CountsConserved(d: Disk, bs: nat, requests: seq<Request>)
    requires bs > 0 && Conserved(d) && forall k :: 0 <= k < |requests| ==> !requests[k].DeleteTag?
    ensures Conserved(After(d, bs, requests))
  {
    forall i | 0 <= i < |d.space.physical| ensures Leaked(d, bs, requests, i) == 0 {
      NothingLeaked(d, bs, requests, i);
    }
    NoLeakMeansRight(d, bs, requests);
    hide Conserved, After, Leaked;
  }
}
