/** When a COMMIT leaves no block free while named, told from the disk it starts on, and a disk on which
    it does not. */
module StorageCommit {
  import opened Common
  import opened BlockNames
  import opened Storage
  import opened StorageCounts
  import opened StorageBitmap

  // The first of the blocks 0 to n - 1 with content h.
  function FirstLike(hashes: nat -> string, h: string, n: nat): (r: Option<nat>)
    ensures r.Some? ==> r.value < n
  {
    if n == 0 then None
    else
      var before := FirstLike(hashes, h, n - 1);
      if before.Some? then before else if hashes(n - 1) == h then Some(n - 1) else None
  }

  /** Where content h is stored once COMMIT has seen n blocks: as the index says, else with the first of
      those blocks that has it. */
  function StoredAt(d: Deduped, hashes: nat -> string, n: nat, h: string): Option<string>
    requires n <= |d.blocks|
  {
    if h in d.index then Some(d.index[h])
    else
      match FirstLike(hashes, h, n)
      case None => None
      case Some(j) => Some(d.blocks[j].physical)
  }

  /** The physical block that logical block i ends on. */
  function Goal(d: Deduped, hashes: nat -> string, i: nat): string
    requires i < |d.blocks|
  {
    match StoredAt(d, hashes, i, hashes(i))
    case None => d.blocks[i].physical
    case Some(path) => path
  }

  // The index of c sends every content where StoredAt says.
  ghost predicate IndexIs(d: Deduped, hashes: nat -> string, n: nat, index: map<string, string>)
    requires n <= |d.blocks|
  {
    forall h :: StoredAt(d, hashes, n, h) == if h in index then Some(index[h]) else None
  }

  ghost predicate BlocksAre(d: Deduped, hashes: nat -> string, n: nat, blocks: seq<LogicalBlock>) {
    |blocks| == |d.blocks| &&
    forall i :: 0 <= i < |blocks| ==> blocks[i].physical == if i < n then Goal(d, hashes, i) else d.blocks[i].physical
  }

  lemma IndexStep(d: Deduped, c: Deduped, n: nat, hashes: nat -> string)
    requires n < |d.blocks| && IndexIs(d, hashes, n, c.index) && BlocksAre(d, hashes, n, c.blocks)
    ensures IndexIs(d, hashes, n + 1, CommitBlock(c, n, hashes(n)).index)
  {
    var e := CommitBlock(c, n, hashes(n));
    hide Drop, Reference;
    forall h ensures StoredAt(d, hashes, n + 1, h) == if h in e.index then Some(e.index[h]) else None {
      assert StoredAt(d, hashes, n, h) == if h in c.index then Some(c.index[h]) else None;
    }
  }

  lemma BlocksStep(d: Deduped, c: Deduped, n: nat, hashes: nat -> string)
    requires n < |d.blocks| && IndexIs(d, hashes, n, c.index) && BlocksAre(d, hashes, n, c.blocks)
    ensures BlocksAre(d, hashes, n + 1, CommitBlock(c, n, hashes(n)).blocks)
  {
    assert StoredAt(d, hashes, n, hashes(n)) == if hashes(n) in c.index then Some(c.index[hashes(n)]) else None;
    assert Goal(d, hashes, n) == if hashes(n) in c.index then c.index[hashes(n)] else d.blocks[n].physical;
    CommitBlockAt(c, n, hashes(n));
    var e := CommitBlock(c, n, hashes(n));
    hide CommitBlock, StoredAt, Goal, IndexIs;
    forall i | 0 <= i < |e.blocks| ensures e.blocks[i].physical == if i < n + 1 then Goal(d, hashes, i) else d.blocks[i].physical {
      assert i != n ==> e.blocks[i] == c.blocks[i];
    }
  }

  // What one block of a COMMIT does to the blocks.
  lemma CommitBlockAt(c: Deduped, n: nat, hash: string)
    requires n < |c.blocks|
    ensures var e := CommitBlock(c, n, hash);
            && |e.blocks| == |c.blocks| && (forall i :: 0 <= i < |c.blocks| && i != n ==> e.blocks[i] == c.blocks[i])
            && e.blocks[n].physical == if hash in c.index then c.index[hash] else c.blocks[n].physical
  {
    hide Drop, Reference;
  }

  /** COMMIT in closed form: after n blocks, each of them is at its goal and the others are where they
      were, and the index is the one it started with and the first block of each content it lacked. */
  lemma {:induction false} CommitClosed(d: Deduped, n: nat, hashes: nat -> string)
    requires n <= |d.blocks|
    ensures BlocksAre(d, hashes, n, CommitBlocks(d, n, hashes).blocks) && IndexIs(d, hashes, n, CommitBlocks(d, n, hashes).index)
  {
    hide *;
    CommitNext(d, n, hashes);
    if n == 0 {
      ClosedStart(d, hashes);
    } else {
      var c := CommitBlocks(d, n - 1, hashes);
      CommitClosed(d, n - 1, hashes);
      SameLength(d, hashes, n - 1, c.blocks);
      IndexStep(d, c, n - 1, hashes);
      BlocksStep(d, c, n - 1, hashes);
    }
  }

  /** The same of the disk that COMMIT leaves: each block of the tag is at its goal, and the index sends each
      content to where COMMIT found or put it. A COMMIT that does not return 0 changes nothing. */
  lemma CommitOnDisk(d: Disk, file: string, tag: string, hashes: nat -> string)
    ensures var (rc, r) := Commit(d, file, tag, hashes);
            && (rc != 0 ==> r == d)
            && (rc == 0 ==>
                  Locate(d.files, file, tag).Some? &&
                  var (f, t) := Locate(d.files, file, tag).value;
                  var start := Deduped(d.files[f].tags[t].blocks, d.space, d.index);
                  && |r.files| == |d.files| && |r.files[f].tags| == |d.files[f].tags|
                  && BlocksAre(start, hashes, |start.blocks|, r.files[f].tags[t].blocks)
                  && IndexIs(start, hashes, |start.blocks|, r.index))
  {
    var at := Locate(d.files, file, tag);
    if at.Some? {
      var start := Deduped(d.files[at.value.0].tags[at.value.1].blocks, d.space, d.index);
      CommitClosed(start, |start.blocks|, hashes);
    }
    hide Locate, CommitBlocks, BlocksAre, IndexIs;
  }

  lemma ClosedStart(d: Deduped, hashes: nat -> string)
    ensures BlocksAre(d, hashes, 0, d.blocks) && IndexIs(d, hashes, 0, d.index)
  {
  }

  lemma SameLength(d: Deduped, hashes: nat -> string, n: nat, blocks: seq<LogicalBlock>)
    requires BlocksAre(d, hashes, n, blocks)
    ensures |blocks| == |d.blocks|
  {
  }

  // Block k leaves path, which nothing else references.
  ghost predicate Frees(c: Deduped, k: nat, hash: string, path: string)
    requires k < |c.blocks|
  {
    && path != BLOCK_ZERO && c.blocks[k].physical == path && hash in c.index && c.index[hash] != path
    && exists i :: 0 <= i < |c.space.physical| && c.space.physical[i].path == path && c.space.physical[i].count == 1
  }

  lemma ReferencePaths(space: Space, path: string)
    ensures var r := Reference(space, path);
            && r.bitmap == space.bitmap
            && |r.physical| == |space.physical| && forall i :: 0 <= i < |r.physical| ==> r.physical[i].path == space.physical[i].path
  {
    hide FindPhysical;
  }

  lemma SameMarks(a: Space, b: Space, path: string)
    requires a.bitmap == b.bitmap && |a.physical| == |b.physical|
    requires forall i :: 0 <= i < |a.physical| ==> a.physical[i].path == b.physical[i].path
    ensures Marked(a, path) <==> Marked(b, path)
  {
  }

  // One block of a COMMIT unmarks at most the physical block it leaves.
  lemma CommitBlockMarks(c: Deduped, k: nat, hash: string, path: string)
    requires k < |c.blocks| && Proper(c.space.physical)
    ensures Marked(CommitBlock(c, k, hash).space, path) <==> Marked(c.space, path) && !Frees(c, k, hash, path)
  {
    if hash in c.index && c.index[hash] != c.blocks[k].physical {
      var s := Drop(c.space, c.blocks[k].physical);
      DropMarks(c.space, c.blocks[k].physical, path);
      ReferencePaths(s, c.index[hash]);
      SameMarks(s, Reference(s, c.index[hash]), path);
    }
    hide Drop, Reference, Marked, Proper;
  }

  /** Block m takes the last reference off `path`: only the tag names it, no other block of the tag that
      is still to come is on it, and none that was before has gone to it or stayed. */
  ghost predicate FreedAt(d: Deduped, hashes: nat -> string, path: string, m: nat)
    requires m < |d.blocks|
  {
    && path != BLOCK_ZERO && d.blocks[m].physical == path && Goal(d, hashes, m) != path
    && (exists i :: 0 <= i < |d.space.physical| && d.space.physical[i].path == path && d.space.physical[i].count == BlockRefs(d.blocks, path))
    && (forall k :: 0 <= k < m ==> Goal(d, hashes, k) != path)
    && (forall k :: m < k < |d.blocks| ==> d.blocks[k].physical != path)
  }

  lemma {:induction false} CountNone<T>(s: seq<T>, p: T -> bool)
    requires forall k :: 0 <= k < |s| ==> !p(s[k])
    ensures Count(s, p) == 0
  {
    if s != [] {
      CountNone(s[..|s| - 1], p);
    }
  }

  // A counted element is counted alone if and only if no other is counted.
  lemma {:induction false} CountAlone<T>(s: seq<T>, m: nat, p: T -> bool)
    requires m < |s| && p(s[m])
    ensures Count(s, p) == 1 <==> forall k :: 0 <= k < |s| && k != m ==> !p(s[k])
  {
    if k :| 0 <= k < |s| && k != m && p(s[k]) {
      if k < m { CountTwo(s, k, m, p); } else { CountTwo(s, m, k, p); }
    } else {
      var n := |s| - 1;
      if m == n {
        CountNone(s[..n], p);
      } else {
        CountAlone(s[..n], m, p);
      }
    }
  }

  // At block m, the count of the block it is on is 1 exactly when only the tag named it at the start and
  // no other block of the tag is on it now.
  lemma LastReference(d: Deduped, c: Deduped, m: nat, path: string, i: nat)
    requires Tracks(d.blocks, d.space.physical, c.blocks, c.space.physical) && Backed(d.blocks, d.space.physical)
    requires m < |c.blocks| && c.blocks[m].physical == path && i < |d.space.physical| && d.space.physical[i].path == path
    ensures |c.space.physical| == |d.space.physical| && c.space.physical[i].path == path
    ensures c.space.physical[i].count == 1 <==>
            d.space.physical[i].count == BlockRefs(d.blocks, path) && forall k :: 0 <= k < |c.blocks| && k != m ==> c.blocks[k].physical != path
  {
    CountAlone(c.blocks, m, Names(path));
    CountPositive(c.blocks, m, Names(path));
    hide Count, PhysicalName;
  }

  // Which other blocks are on `path` at block m, told from the start.
  lemma OthersOff(d: Deduped, hashes: nat -> string, m: nat, blocks: seq<LogicalBlock>, path: string)
    requires m < |d.blocks| && BlocksAre(d, hashes, m, blocks)
    ensures blocks[m].physical == d.blocks[m].physical
    ensures (forall k :: 0 <= k < |blocks| && k != m ==> blocks[k].physical != path) <==>
            (forall k :: 0 <= k < m ==> Goal(d, hashes, k) != path) && (forall k :: m < k < |d.blocks| ==> d.blocks[k].physical != path)
  {
    hide Goal;
    if forall k :: 0 <= k < |blocks| && k != m ==> blocks[k].physical != path {
      assert forall k :: 0 <= k < m ==> blocks[k].physical == Goal(d, hashes, k);
      assert forall k :: m < k < |d.blocks| ==> blocks[k].physical == d.blocks[k].physical;
    }
  }

  // Whether block m moves away.
  lemma Moves(d: Deduped, hashes: nat -> string, m: nat, index: map<string, string>)
    requires m < |d.blocks| && IndexIs(d, hashes, m, index)
    ensures Goal(d, hashes, m) != d.blocks[m].physical <==> hashes(m) in index && index[hashes(m)] != d.blocks[m].physical
  {
    assert StoredAt(d, hashes, m, hashes(m)) == if hashes(m) in index then Some(index[hashes(m)]) else None;
    hide StoredAt;
  }

  lemma FreesIffFreedAt(d: Deduped, m: nat, hashes: nat -> string, path: string)
    requires Proper(d.space.physical) && Backed(d.blocks, d.space.physical) && m < |d.blocks|
    ensures Frees(CommitBlocks(d, m, hashes), m, hashes(m), path) <==> FreedAt(d, hashes, path, m)
  {
    hide CommitBlocks, BlockRefs, StoredAt, Goal, BlocksAre, IndexIs, Tracks, Backed, Proper;
    var c := CommitBlocks(d, m, hashes);
    CommitClosed(d, m, hashes);
    CommitTracks(d, m, hashes);
    OthersOff(d, hashes, m, c.blocks, path);
    Moves(d, hashes, m, c.index);
    if d.blocks[m].physical == path {
      TrackedPaths(d.blocks, d.space.physical, c.blocks, c.space.physical);
      forall i | 0 <= i < |d.space.physical| && d.space.physical[i].path == path
        ensures c.space.physical[i].count == 1 <==>
                d.space.physical[i].count == BlockRefs(d.blocks, path) && forall k :: 0 <= k < |c.blocks| && k != m ==> c.blocks[k].physical != path
      {
        LastReference(d, c, m, path, i);
      }
    }
  }

  lemma TrackedPaths(from: seq<LogicalBlock>, p: seq<Physical>, to: seq<LogicalBlock>, q: seq<Physical>)
    requires Tracks(from, p, to, q)
    ensures |q| == |p| && forall i :: 0 <= i < |p| ==> q[i].path == p[i].path
  {
    hide BlockRefs, PhysicalName;
  }

  /** A physical block is marked after n blocks of a COMMIT if and only if it was when the COMMIT started
      and none of them took its last reference. */
  lemma {:induction false} MarkedAfter(d: Deduped, n: nat, hashes: nat -> string, path: string)
    requires Proper(d.space.physical) && Backed(d.blocks, d.space.physical) && n <= |d.blocks|
    ensures Marked(CommitBlocks(d, n, hashes).space, path) <==>
            Marked(d.space, path) && forall m :: 0 <= m < n ==> !FreedAt(d, hashes, path, m)
  {
    hide *;
    CommitNext(d, n, hashes);
    if n > 0 {
      var c := CommitBlocks(d, n - 1, hashes);
      MarkedAfter(d, n - 1, hashes, path);
      CommitTracks(d, n - 1, hashes);
      TracksProper(d.blocks, d.space.physical, c.blocks, c.space.physical);
      CommitBlockMarks(c, n - 1, hashes(n - 1), path);
      FreesIffFreedAt(d, n - 1, hashes, path);
    }
  }

  /** Block n, if it moves, goes to a physical block that is marked and that no earlier block has freed. */
  ghost predicate GoalSafe(d: Deduped, hashes: nat -> string, n: nat)
    requires n < |d.blocks|
  {
    Goal(d, hashes, n) != d.blocks[n].physical ==>
      Marked(d.space, Goal(d, hashes, n)) && forall m :: 0 <= m < n ==> !FreedAt(d, hashes, Goal(d, hashes, n), m)
  }

  lemma RedirectIffSafe(d: Deduped, n: nat, hashes: nat -> string)
    requires Proper(d.space.physical) && Backed(d.blocks, d.space.physical) && n < |d.blocks|
    ensures RedirectMarked(CommitBlocks(d, n, hashes), n, hashes(n)) <==> GoalSafe(d, hashes, n)
  {
    var c := CommitBlocks(d, n, hashes);
    CommitClosed(d, n, hashes);
    assert c.blocks[n].physical == d.blocks[n].physical;
    assert StoredAt(d, hashes, n, hashes(n)) == if hashes(n) in c.index then Some(c.index[hashes(n)]) else None;
    MarkedAfter(d, n, hashes, Goal(d, hashes, n));
    hide CommitBlocks, StoredAt, Marked, FreedAt, BlocksAre, IndexIs, Proper, Backed;
  }

  lemma {:induction false} TargetsIffSafe(d: Deduped, n: nat, hashes: nat -> string)
    requires Proper(d.space.physical) && Backed(d.blocks, d.space.physical) && n <= |d.blocks|
    ensures TargetsMarked(d, n, hashes) <==> forall i :: 0 <= i < n ==> GoalSafe(d, hashes, i)
  {
    hide RedirectMarked, GoalSafe, CommitBlocks, Proper, Backed;
    if n > 0 {
      TargetsIffSafe(d, n - 1, hashes);
      RedirectIffSafe(d, n - 1, hashes);
    }
  }

  /** The exact condition, on the disk a COMMIT of an open tag starts on, under which it leaves no block
      free while named: every block that moves goes to a physical block that is marked and that no
      earlier block of the tag has freed. It is also what makes every redirection go to a marked block. */
  lemma CommitExact(d: Disk, file: string, tag: string, hashes: nat -> string)
    requires Sufficient(d) && Covers(d.space) && Locate(d.files, file, tag).Some?
    requires var at := Locate(d.files, file, tag).value; d.files[at.0].tags[at.1].status.WorkInProgress?
    ensures var at := Locate(d.files, file, tag).value;
            var blocks := d.files[at.0].tags[at.1].blocks;
            var safe := forall i :: 0 <= i < |blocks| ==> GoalSafe(Deduped(blocks, d.space, d.index), hashes, i);
            (NamedIsMarked(Commit(d, file, tag, hashes).1) <==> safe) && (CommitSafe(d, CommitTag(file, tag, hashes)) <==> safe)
  {
    var at := Locate(d.files, file, tag).value;
    var blocks := d.files[at.0].tags[at.1].blocks;
    var start := Deduped(blocks, d.space, d.index);
    var q := CommitTag(file, tag, hashes);
    SufficientBacks(d, at.0, at.1);
    assert Proper(d.space.physical);
    TargetsIffSafe(start, |blocks|, hashes);
    assert CommitSafe(d, q) <==> TargetsMarked(start, |blocks|, hashes);
    hide *;
    if CommitSafe(d, q) {
      CommitTagCovers(d, file, tag, hashes);
      NoLeak(d, q);
      CommitSufficient(d, file, tag, hashes);
      CoversMarks(Commit(d, file, tag, hashes).1);
    }
    if NamedIsMarked(Commit(d, file, tag, hashes).1) {
      forall i | 0 <= i < |blocks| ensures GoalSafe(start, hashes, i) {
        GoalMarked(d, file, tag, hashes, i);
        MarkedAfter(start, |blocks|, hashes, Goal(start, hashes, i));
        NeverFreed(start, hashes, i);
      }
    }
  }

  lemma NoLeak(d: Disk, r: Request)
    requires !r.DeleteTag?
    ensures DeleteSafe(d, r)
  {
  }

  lemma CommitSufficient(d: Disk, file: string, tag: string, hashes: nat -> string)
    requires Sufficient(d) && DeleteSafe(d, CommitTag(file, tag, hashes))
    ensures Sufficient(Commit(d, file, tag, hashes).1)
  {
    hide Sufficient, DeleteSafe, Commit;
    ServeSufficient(d, 1, CommitTag(file, tag, hashes));
  }

  // Every block of the committed tag ends on its goal, which is marked where named blocks are.
  lemma GoalMarked(d: Disk, file: string, tag: string, hashes: nat -> string, i: nat)
    requires Locate(d.files, file, tag).Some?
    requires var at := Locate(d.files, file, tag).value;
             d.files[at.0].tags[at.1].status.WorkInProgress? && i < |d.files[at.0].tags[at.1].blocks|
    requires NamedIsMarked(Commit(d, file, tag, hashes).1)
    ensures var at := Locate(d.files, file, tag).value;
            var start := Deduped(d.files[at.0].tags[at.1].blocks, d.space, d.index);
            Marked(CommitBlocks(start, |start.blocks|, hashes).space, Goal(start, hashes, i))
  {
    var at := Locate(d.files, file, tag).value;
    var start := Deduped(d.files[at.0].tags[at.1].blocks, d.space, d.index);
    CommitClosed(start, |start.blocks|, hashes);
    var r := Commit(d, file, tag, hashes).1;
    hide Locate, CommitBlocks, Goal, Marked, StoredAt;
    assert r.files[at.0].tags[at.1].blocks[i].physical == Goal(start, hashes, i);
  }

  lemma NeverFreed(d: Deduped, hashes: nat -> string, i: nat)
    requires i < |d.blocks| && Marked(d.space, Goal(d, hashes, i))
    requires forall m :: 0 <= m < |d.blocks| ==> !FreedAt(d, hashes, Goal(d, hashes, i), m)
    ensures GoalSafe(d, hashes, i)
  {
    hide FreedAt, Goal, Marked;
  }

  // ---- A disk on which marked targets are not enough ----------------------------------------------

  // Two blocks on physical blocks 1 and 2, which the index sends to 2 and 1.
  function Crossed(): Disk {
    Disk([File("f", [Tag("t", 2, WorkInProgress,
                     [LogicalBlock("000000.dat", "block0001"), LogicalBlock("000001.dat", "block0002")], [1, 2])])],
         Space([Physical("block0000", 0), Physical("block0001", 1), Physical("block0002", 1)],
               [true, true, true, false, false, false, false, false]),
         map["a" := "block0002", "b" := "block0001"])
  }

  /** That every index target is marked when a COMMIT starts is not enough: the COMMIT's first block can
      free the block to which its second is then redirected. */
  lemma MarkedAtStartIsNotEnough(hashes: nat -> string)
    requires hashes(0) == "a" && hashes(1) == "b"
    ensures var d := Crossed();
            && Conserved(d) && Covers(d.space) && (forall h :: h in d.index ==> Marked(d.space, d.index[h]))
            && !NamedIsMarked(Commit(d, "f", "t", hashes).1)
  {
    CrossedMarked();
    CrossedConserved();
    CrossedCommit(hashes);
    CrossedSteps(Deduped(Crossed().files[0].tags[0].blocks, Crossed().space, Crossed().index), hashes);
    hide Commit, CommitBlocks, Conserved, NamedIsMarked, Covers, Marked, Crossed;
    SecondNotMarked(Commit(Crossed(), "f", "t", hashes).1);
  }

  lemma CrossedMarked()
    ensures Covers(Crossed().space) && forall h :: h in Crossed().index ==> Marked(Crossed().space, Crossed().index[h])
  {
  }

  lemma CrossedCommit(hashes: nat -> string)
    ensures var d := Crossed();
            var c := CommitBlocks(Deduped(d.files[0].tags[0].blocks, d.space, d.index), 2, hashes);
            var r := Commit(d, "f", "t", hashes).1;
            r.space == c.space && |r.files| == 1 && |r.files[0].tags| == 1 && r.files[0].tags[0].blocks == c.blocks
  {
    var d := Crossed();
    assert FindFile(d.files, "f") == Some(0) by { assert d.files[..0] == []; }
    assert FindTag(d.files[0].tags, "t") == Some(0) by { assert d.files[0].tags[..0] == []; }
    hide CommitBlocks, FindFile, FindTag;
  }

  lemma SecondNotMarked(r: Disk)
    requires |r.files| > 0 && |r.files[0].tags| > 0 && |r.files[0].tags[0].blocks| > 1
    requires r.files[0].tags[0].blocks[1].physical == "block0001" && |r.space.bitmap| >= 2 && r.space.bitmap[..2] == [true, false]
    requires |r.space.physical| == 3 && r.space.physical[1].path == "block0001"
    ensures !NamedIsMarked(r)
  {
    assert r.space.bitmap[1] == r.space.bitmap[..2][1];
    assert !Marked(r.space, r.files[0].tags[0].blocks[1].physical);
  }

  lemma CrossedConserved()
    ensures Conserved(Crossed())
  {
    var d := Crossed();
    var tags := d.files[0].tags;
    var blocks := tags[0].blocks;
    assert Proper(d.space.physical);
    forall i | 0 <= i < 3 ensures d.space.physical[i].count == References(d.files, d.space.physical[i].path) {
      var path := d.space.physical[i].path;
      assert blocks[..1][..0] == [] && tags[..0] == [] && d.files[..0] == [];
      CountAppend([], blocks[0], Names(path));
      CountAppend([blocks[0]], blocks[1], Names(path));
      assert blocks == [blocks[0]] + [blocks[1]] && [] + [blocks[0]] == [blocks[0]];
      assert TagRefs(tags, path) == TagRefs(tags[..0], path) + BlockRefs(blocks, path);
      assert References(d.files, path) == References(d.files[..0], path) + TagRefs(tags, path);
    }
  }

  lemma CrossedSteps(start: Deduped, hashes: nat -> string)
    requires start == Deduped(Crossed().files[0].tags[0].blocks, Crossed().space, Crossed().index)
    requires hashes(0) == "a" && hashes(1) == "b"
    ensures var c := CommitBlocks(start, 2, hashes);
            && c.blocks[1].physical == "block0001" && |c.space.bitmap| >= 2 && c.space.bitmap[..2] == [true, false]
            && |c.space.physical| == 3 && c.space.physical[1].path == "block0001"
  {
    var p := start.space.physical;
    FindInThree(p);
    var one := CommitBlock(start, 0, "a");
    assert one.space == Space([p[0], Physical("block0001", 0), Physical("block0002", 2)], start.space.bitmap[1 := false]) by {
      FindInThree(Drop(start.space, "block0001").physical);
    }
    FindInThree(one.space.physical);
    FindInThree(Drop(one.space, "block0002").physical);
    assert CommitBlocks(start, 1, hashes) == one;
  }

  lemma FindInThree(p: seq<Physical>)
    requires |p| == 3 && p[0].path == "block0000" && p[1].path == "block0001" && p[2].path == "block0002"
    ensures FindPhysical(p, "block0001") == Some(1) && FindPhysical(p, "block0002") == Some(2)
  {
    assert "block0000"[8] == '0' && "block0001"[8] == '1' && "block0002"[8] == '2';
  }
}
