/** Storage's operations as the loops they are, proved against the functions of module Storage. */
module StorageServer {
  import opened Common
  import opened BlockNames
  import opened Storage

  class Store {
    const blockSize: nat
    var files: seq<File>
    var physical: seq<Physical>
    const bitmap: array<bool>
    var index: map<string, string>

    ghost function Snap(): Disk
      reads this, bitmap
    {
      Disk(files, Space(physical, bitmap[..]), index)
    }

    // Counts and bitmap.
    ghost function Room(): Space
      reads this, bitmap
    {
      Space(physical, bitmap[..])
    }

    ghost predicate Valid()
      reads this
    {
      blockSize > 0 && physical != []
    }

    // A fresh start: block 0 holds the one block of initial_file:BASE.
    constructor (blocks: nat, blockSize: nat)
      requires blocks > 0 && blockSize > 0
      ensures Valid() && this.blockSize == blockSize && fresh(bitmap)
      ensures Snap() == FreshDisk(blocks, blockSize)
    {
      this.blockSize := blockSize;
      files := [File("initial_file", [Tag("BASE", blockSize, Committed, [LogicalBlock("000000.dat", BLOCK_ZERO)], [0])])];
      physical := seq(blocks, i requires 0 <= i < blocks => Physical(PhysicalName(i), if i == 0 then 1 else 0));
      bitmap := new bool[(blocks + 7) / 8 * 8](i => i == 0);
      index := map[];
      new;
      assert bitmap[..] == FreshDisk(blocks, blockSize).space.bitmap;
    }

    // buscar_index_blockFisico
    method FindBlock(path: string) returns (i: int)
      ensures i == match FindPhysical(physical, path) case None => -1 case Some(k) => k
    {
      i := 0;
      while i < |physical|
        invariant 0 <= i <= |physical|
        invariant First(physical[..i], IsPath(path)).None?
      {
        assert physical[..i + 1][..i] == physical[..i];
        if physical[i].path == path {
          FirstOfPrefix(physical, i + 1, IsPath(path));
          return;
        }
        i := i + 1;
      }
      assert physical[..i] == physical;
      i := -1;
    }

    // bitmap_encontrar_bloque_libre
    method FindFreeBit() returns (i: int)
      ensures i == match LeastFree(bitmap[..]) case None => -1 case Some(k) => k
    {
      i := 0;
      while i < bitmap.Length
        invariant 0 <= i <= bitmap.Length
        invariant First(bitmap[..i], Free()).None?
      {
        assert bitmap[..i + 1][..i] == bitmap[..i];
        if !bitmap[i] {
          assert bitmap[..][..i + 1] == bitmap[..i + 1];
          FirstOfPrefix(bitmap[..], i + 1, Free());
          return;
        }
        i := i + 1;
      }
      assert bitmap[..i] == bitmap[..];
      i := -1;
    }

    // bitmap_marcar_bloque_libre and bitmap_marcar_bloque_ocupado
    method SetBit(i: nat, used: bool)
      modifies bitmap
      ensures bitmap[..] == Mark(old(bitmap[..]), i, used)
    {
      if i < bitmap.Length {
        bitmap[i] := used;
      }
    }

    // buscar_index_file
    method FindFileIndex(name: string) returns (i: int)
      ensures i == match FindFile(files, name) case None => -1 case Some(k) => k
    {
      i := 0;
      while i < |files|
        invariant 0 <= i <= |files|
        invariant First(files[..i], IsFile(name)).None?
      {
        assert files[..i + 1][..i] == files[..i];
        if files[i].name == name {
          FirstOfPrefix(files, i + 1, IsFile(name));
          return;
        }
        i := i + 1;
      }
      assert files[..i] == files;
      i := -1;
    }

    // buscar_index_tag
    method FindTagIndex(f: nat, name: string) returns (i: int)
      requires f < |files|
      ensures i == match FindTag(files[f].tags, name) case None => -1 case Some(k) => k
    {
      var tags := files[f].tags;
      i := 0;
      while i < |tags|
        invariant 0 <= i <= |tags|
        invariant First(tags[..i], IsTag(name)).None?
      {
        assert tags[..i + 1][..i] == tags[..i];
        if tags[i].name == name {
          FirstOfPrefix(tags, i + 1, IsTag(name));
          return;
        }
        i := i + 1;
      }
      assert tags[..i] == tags;
      i := -1;
    }

    // buscar_tag
    method LookUp(file: string, tag: string) returns (at: Option<(nat, nat)>)
      ensures at == Locate(files, file, tag)
    {
      var f := FindFileIndex(file);
      if f == -1 {
        return None;
      }
      var t := FindTagIndex(f, tag);
      if t == -1 {
        return None;
      }
      return Some((f, t));
    }

    // One reference less, freeing the block when it was the last.
    method Release(path: string) returns (freed: Option<nat>)
      modifies `physical, bitmap
      ensures Room() == Drop(old(Room()), path)
      ensures freed == Freed(old(Room()), path)
      ensures |physical| == |old(physical)|
    {
      freed := None;
      var i := FindBlock(path);
      if i >= 0 {
        physical := physical[i := Physical(physical[i].path, physical[i].count - 1)];
        if physical[i].count == 0 && i != 0 {
          SetBit(i, false);
          freed := Some(i);
        }
      }
    }

    method Retain(path: string)
      modifies `physical
      ensures Room() == Reference(old(Room()), path)
      ensures |physical| == |old(physical)|
    {
      var i := FindBlock(path);
      if i >= 0 {
        physical := physical[i := Physical(physical[i].path, physical[i].count + 1)];
      }
    }

    // operacion_create_file
    method CreateFile(file: string, tag: string) returns (rc: int)
      modifies `files
      ensures (rc, Snap()) == Create(old(Snap()), file, tag)
    {
      var at := LookUp(file, tag);
      if at.Some? {
        return -1;
      }
      files := files + [File(file, [])];
      var f := FindFileIndex(file);
      if f < 0 {
        return -1;
      }
      files := AddTag(files, f, Tag(tag, 0, WorkInProgress, [], []));
      return 0;
    }

    // One iteration of the growing branch: take a free bit, link, and record the block on block 0, or give
    // the bit back.
    method GrowOnce(f: nat, t: nat, number: int, linked: bool) returns (full: bool)
      requires Valid() && f < |files| && t < |files[f].tags|
      modifies `files, `physical, bitmap
      ensures Valid()
      ensures Once(old(files), f, t, old(Room()), number, linked, full, files, Room())
    {
      hide LeastFree, LogicalName, PutTag;
      ghost var bits := bitmap[..];
      var name := LogicalName(number);
      var k := FindFreeBit();
      if k < 0 {
        return true;
      }
      SetBit(k, true);
      if !linked {
        SetBit(k, false);
        assert bitmap[..] == bits;
        return false;
      }
      var tag := files[f].tags[t];
      files := PutTag(files, f, t, tag.(blocks := tag.blocks + [LogicalBlock(name, "block0000")], used := Listed(tag.used, 0)));
      physical := physical[0 := Physical(physical[0].path, physical[0].count + 1)];
      return false;
    }

    // One turn of the growing loop, after which either the loop has done its work or one more iteration is.
    method GrowTurn(f: nat, t: nat, first: int, i: nat, n: nat, bad: set<nat>, ghost fs: seq<File>, ghost start: Space)
      returns (full: bool)
      requires Valid() && i < n && f < |files| && t < |files[f].tags| && f < |fs| && t < |fs[f].tags|
      requires Growing(fs, f, t, Grow(fs[f].tags[t].blocks, start, first, i, bad), files, Room())
      modifies `files, `physical, bitmap
      ensures Valid() && f < |files| && t < |files[f].tags|
      ensures var w := Grow(fs[f].tags[t].blocks, start, first, if full then n else i + 1, bad);
              if full then w.full && GrownTo(fs, f, t, w, files, Room()) else Growing(fs, f, t, w, files, Room())
    {
      hide Grow, Growing, GrownTo, Once, PutTag;
      ghost var gs, space := files, Room();
      full := GrowOnce(f, t, first + i, i !in bad);
      GrowTurned(fs, f, t, start, first, i, n, bad, gs, space, full, files, Room());
    }

    // The growing branch of operacion_truncate_file; `bad` are the iterations whose link fails.
    method GrowTag(f: nat, t: nat, first: int, n: nat, bad: set<nat>) returns (full: bool)
      requires Valid() && f < |files| && t < |files[f].tags|
      modifies `files, `physical, bitmap
      ensures Valid()
      ensures var w := Grow(old(files)[f].tags[t].blocks, old(Room()), first, n, bad);
              full == w.full && GrownTo(old(files), f, t, w, files, Room())
    {
      ghost var fs, start := files, Room();
      hide Grow, Growing, GrownTo, Once, PutTag;
      GrowingStart(fs, f, t, start, first, bad);
      var i := 0;
      while i < n
        invariant 0 <= i <= n && Valid()
        invariant f < |files| && t < |files[f].tags|
        invariant Growing(fs, f, t, Grow(fs[f].tags[t].blocks, start, first, i, bad), files, Room())
      {
        full := GrowTurn(f, t, first, i, n, bad, fs, start);
        if full {
          return;
        }
        i := i + 1;
      }
      GrowingEnd(fs, f, t, Grow(fs[f].tags[t].blocks, start, first, n, bad), files, Room());
      return false;
    }

    // The shrinking branch.
    method ShrinkTag(f: nat, t: nat, n: nat)
      requires Valid() && f < |files| && t < |files[f].tags|
      modifies `files, `physical, bitmap
      ensures Valid()
      ensures var tag := old(files)[f].tags[t];
              var w := Shrink(tag.blocks, old(Room()), n);
              && !w.full && Room() == w.space
              && files == PutTag(old(files), f, t, ShrunkTag(tag, old(Room()), n))
    {
      hide PutTag, Drop, Freed;
      ghost var tag := files[f].tags[t];
      ghost var start := Room();
      PutTagLaws(files, f, t, tag, tag);
      assert tag.(blocks := tag.blocks) == tag;
      var i := 0;
      while i < n
        invariant 0 <= i <= n && physical != []
        invariant var w := Shrink(tag.blocks, start, i);
                  && !w.full && Room() == w.space
                  && files == PutTag(old(files), f, t, ShrunkTag(tag, start, i))
      {
        PutTagLaws(old(files), f, t, ShrunkTag(tag, start, i), ShrunkTag(tag, start, i + 1));
        var now := files[f].tags[t];
        if now.blocks != [] {
          var last := now.blocks[|now.blocks| - 1];
          var freed := Release(last.physical);
          files := PutTag(files, f, t, now.(blocks := now.blocks[..|now.blocks| - 1],
                                           used := if freed.None? then now.used else Without(now.used, freed.value)));
        }
        i := i + 1;
      }
    }

    // The two branches of operacion_truncate_file.
    method ResizeTag(f: nat, t: nat, bytes: int, bad: set<nat>) returns (full: bool)
      requires Valid() && f < |files| && t < |files[f].tags|
      modifies `files, `physical, bitmap
      ensures Valid()
      ensures var tag := old(files)[f].tags[t];
              var w := Resize(tag, old(Room()), bytes, blockSize, bad);
              && full == w.full && Room() == w.space
              && files == PutTag(old(files), f, t, ResizedTag(tag, old(Room()), bytes, blockSize, bad))
    {
      hide PutTag, BlockCount, Grow;
      var now := BlockCount(files[f].tags[t].size, blockSize);
      var wanted := BlockCount(bytes, blockSize);
      full := false;
      if wanted > now {
        full := GrowTag(f, t, now, wanted - now, bad);
      } else if wanted < now {
        ShrinkTag(f, t, now - wanted);
      } else {
        PutTagLaws(files, f, t, files[f].tags[t], files[f].tags[t]);
        assert files[f].tags[t].(blocks := files[f].tags[t].blocks, used := files[f].tags[t].used) == files[f].tags[t];
      }
    }

    // operacion_truncate_file
    method TruncateFile(file: string, tag: string, bytes: int, bad: set<nat>) returns (rc: int)
      requires Valid()
      modifies `files, `physical, bitmap
      ensures Valid() && (rc, Snap()) == Truncate(old(Snap()), blockSize, file, tag, bytes, bad)
    {
      if Unsigned(bytes) % blockSize != 0 {
        return -1;
      }
      var at := LookUp(file, tag);
      if at.None? {
        return 1;
      }
      var (f, t) := at.value;
      if files[f].tags[t].status.Committed? {
        return -1;
      }
      hide Locate, Resize, UsedResized, PutTag;
      ghost var before := files[f].tags[t];
      ghost var resized := ResizedTag(before, Room(), bytes, blockSize, bad);
      PutTagLaws(files, f, t, resized, resized.(size := bytes, used := if bytes == 0 then [] else resized.used));
      var full := ResizeTag(f, t, bytes, bad);
      if full {
        return -1;
      }
      var now := files[f].tags[t];
      files := PutTag(files, f, t, now.(size := bytes, used := if bytes == 0 then [] else now.used));
      return 0;
    }

    // operacion_tag_file; `bad` are the blocks whose link fails.
    method TagFile(file: string, tag: string, toFile: string, toTag: string, bad: set<nat>) returns (rc: int)
      requires Valid()
      modifies `files, `physical
      ensures Valid() && (rc, Snap()) == Storage.TagFile(old(Snap()), file, tag, toFile, toTag, bad)
    {
      var at := LookUp(file, tag);
      if at.None? {
        return -1;
      }
      var origin := files[at.value.0].tags[at.value.1];
      var g := FindFileIndex(toFile);
      if g == -1 {
        files := files + [File(toFile, [])];
        g := FindFileIndex(toFile);
      }
      var blocks := CopyBlocks(origin.blocks, bad);
      files := AddTag(files, g, Tag(toTag, origin.size, WorkInProgress, blocks, origin.used));
      return 0;
    }

    method CopyBlocks(from: seq<LogicalBlock>, bad: set<nat>) returns (blocks: seq<LogicalBlock>)
      requires Valid()
      modifies `physical
      ensures Valid()
      ensures var w := Copy(from, old(Room()), |from|, bad);
              blocks == w.blocks && Room() == w.space
    {
      ghost var start := Room();
      blocks := [];
      var i := 0;
      while i < |from|
        invariant 0 <= i <= |from| && physical != []
        invariant blocks == Copy(from, start, i, bad).blocks
        invariant Room() == Copy(from, start, i, bad).space
      {
        if i !in bad {
          Retain(from[i].physical);
          blocks := blocks + [from[i]];
        }
        i := i + 1;
      }
    }

    // procesar_bloque_commit and reasignar_bloque_logico on block b of a tag.
    method CommitBlock(f: nat, t: nat, b: nat, hash: string)
      requires Valid() && f < |files| && t < |files[f].tags| && b < |files[f].tags[t].blocks|
      modifies `files, `physical, `index, bitmap
      ensures Valid()
      ensures var tag := old(files)[f].tags[t];
              var c := Storage.CommitBlock(Deduped(tag.blocks, old(Room()), old(index)), b, hash);
              && Room() == c.space && index == c.index
              && files == PutTag(old(files), f, t, tag.(blocks := c.blocks))
    {
      hide PutTag, Drop, Reference;
      var tag := files[f].tags[t];
      var block := tag.blocks[b];
      PutTagLaws(files, f, t, tag, tag);
      assert tag.(blocks := tag.blocks) == tag;
      if hash !in index {
        index := index[hash := block.physical];
      } else if index[hash] != block.physical {
        var _ := Release(block.physical);
        Retain(index[hash]);
        files := PutTag(files, f, t, tag.(blocks := tag.blocks[b := block.(physical := index[hash])]));
      }
    }

    // operacion_commit_tag
    method CommitTag(file: string, tag: string, hashes: nat -> string) returns (rc: int)
      requires Valid()
      modifies `files, `physical, `index, bitmap
      ensures Valid() && (rc, Snap()) == Commit(old(Snap()), file, tag, hashes)
    {
      var at := LookUp(file, tag);
      if at.None? {
        return -1;
      }
      var (f, t) := at.value;
      if files[f].tags[t].status.Committed? {
        return 1;
      }
      hide Locate, CommitBlocks, PutTag;
      ghost var blocks := CommitBlocks(Deduped(files[f].tags[t].blocks, Room(), index), |files[f].tags[t].blocks|, hashes).blocks;
      PutTagLaws(files, f, t, files[f].tags[t].(status := Committed), files[f].tags[t].(status := Committed, blocks := blocks));
      files := PutTag(files, f, t, files[f].tags[t].(status := Committed));
      CommitAll(f, t, hashes);
      return 0;
    }

    method CommitAll(f: nat, t: nat, hashes: nat -> string)
      requires Valid() && f < |files| && t < |files[f].tags|
      modifies `files, `physical, `index, bitmap
      ensures Valid()
      ensures var tag := old(files)[f].tags[t];
              var c := CommitBlocks(Deduped(tag.blocks, old(Room()), old(index)), |tag.blocks|, hashes);
              && Room() == c.space && index == c.index
              && files == PutTag(old(files), f, t, tag.(blocks := c.blocks))
    {
      ghost var tag := files[f].tags[t];
      ghost var start := Deduped(tag.blocks, Room(), index);
      hide PutTag, Storage.CommitBlock;
      PutTagLaws(files, f, t, tag, tag);
      assert tag.(blocks := tag.blocks) == tag;
      PutTagLaws(files, f, t, tag.(blocks := start.blocks), tag);
      var i := 0;
      while i < |files[f].tags[t].blocks|
        invariant 0 <= i <= |tag.blocks| && physical != []
        invariant var c := CommitBlocks(start, i, hashes);
                  && Room() == c.space && index == c.index
                  && files == PutTag(old(files), f, t, tag.(blocks := c.blocks))
        invariant files[f].tags[t].blocks == CommitBlocks(start, i, hashes).blocks
        decreases |tag.blocks| - i
      {
        PutTagLaws(old(files), f, t, tag.(blocks := CommitBlocks(start, i, hashes).blocks), tag.(blocks := CommitBlocks(start, i + 1, hashes).blocks));
        PutTagLaws(old(files), f, t, tag.(blocks := CommitBlocks(start, i + 1, hashes).blocks), tag);
        CommitBlock(f, t, i, hashes(i));
        i := i + 1;
      }
    }

    // The loop of operacion_eliminar_tag that empties the list of used blocks.
    method DiscardAll(listed: seq<nat>)
      modifies `physical, bitmap
      ensures Room() == Discard(old(Room()), listed)
      ensures |physical| == |old(physical)|
    {
      hide Drop;
      ghost var start := Room();
      var used := listed;
      while used != []
        invariant Discard(Room(), used) == Discard(start, listed)
        invariant |physical| == |old(physical)|
        decreases |used|
      {
        var number := used[|used| - 1];
        used := used[..|used| - 1];
        var _ := Release(NumberedName(|physical|, number));
      }
    }

    // operacion_eliminar_tag
    method DeleteTag(file: string, tag: string)
      modifies `files, `physical, bitmap
      ensures Snap() == Delete(old(Snap()), file, tag)
      ensures |physical| == |old(physical)|
    {
      var at := LookUp(file, tag);
      if at.None? {
        return;
      }
      var (f, t) := at.value;
      hide Locate, Discard;
      DiscardAll(files[f].tags[t].used);
      files := RemoveTag(files, f, t);
    }

    // storage_write_block and operacion_write_bloque, without the bytes.
    method WritePage(file: string, tag: string, number: nat, length: nat, hash: string, ok: bool) returns (rc: int)
      modifies `index
      ensures (rc, Snap()) == WriteBlock(old(Snap()), blockSize, file, tag, number, length, hash, ok)
    {
      var at := LookUp(file, tag);
      if at.None? {
        return -1;
      }
      var blocks := files[at.value.0].tags[at.value.1].blocks;
      if number >= |blocks| || length > blockSize {
        return -1;
      }
      var i := FindBlock(blocks[number].physical);
      if i < 0 || !ok {
        return -1;
      }
      index := index - {hash};
      return 0;
    }

    /** One request. */
    method Handle(r: Request) returns (rc: int)
      requires Valid()
      modifies `files, `physical, `index, bitmap
      ensures Valid() && (rc, Snap()) == Serve(old(Snap()), blockSize, r)
    {
      match r
      case CreateFile(file, tag) => rc := CreateFile(file, tag);
      case TruncateFile(file, tag, bytes, bad) => rc := TruncateFile(file, tag, bytes, bad);
      case CopyTag(file, tag, toFile, toTag, bad) => rc := TagFile(file, tag, toFile, toTag, bad);
      case CommitTag(file, tag, hashes) => rc := CommitTag(file, tag, hashes);
      case DeleteTag(file, tag) =>
        DeleteTag(file, tag);
        rc := 0;
      case WritePage(file, tag, number, length, hash, ok) => rc := WritePage(file, tag, number, length, hash, ok);
    }

    /** A run of requests leaves the disk that `After` describes, so everything proved of it holds. */
    method HandleAll(requests: seq<Request>)
      requires Valid()
      modifies `files, `physical, `index, bitmap
      ensures Valid() && Snap() == After(old(Snap()), blockSize, requests)
    {
      var i := 0;
      while i < |requests|
        invariant 0 <= i <= |requests| && Valid()
        invariant After(old(Snap()), blockSize, requests) == After(Snap(), blockSize, requests[i..])
      {
        assert requests[i..][1..] == requests[i + 1..];
        var rc := Handle(requests[i]);
        i := i + 1;
      }
    }
  }

  // esta_en_array and string_array_push
  function Listed(used: seq<nat>, i: nat): seq<nat> {
    if i in used then used else used + [i]
  }

  // What one iteration of the growing branch does to files and space.
  ghost predicate Once(files: seq<File>, f: nat, t: nat, space: Space, number: int, linked: bool, full: bool, files': seq<File>, space': Space)
    requires f < |files| && t < |files[f].tags| && space.physical != []
  {
    var tag, k := files[f].tags[t], LeastFree(space.bitmap);
    && full == k.None?
    && if full || !linked then space' == space && files' == files
       else
         && space' == Space(Recount(space.physical, 0, 1), Mark(space.bitmap, k.value, true))
         && files' == PutTag(files, f, t, tag.(blocks := tag.blocks + [LogicalBlock(LogicalName(number), BLOCK_ZERO)], used := Listed(tag.used, 0)))
  }

  // The tag and the space are those of w.
  ghost predicate GrownTo(fs: seq<File>, f: nat, t: nat, w: Work, files: seq<File>, space: Space)
    requires f < |fs| && t < |fs[f].tags|
  {
    space == w.space && files == PutTag(fs, f, t, GrownTag(fs[f].tags[t], w))
  }

  // Between two iterations.
  ghost predicate Growing(fs: seq<File>, f: nat, t: nat, w: Work, files: seq<File>, space: Space)
    requires f < |fs| && t < |fs[f].tags|
  {
    !w.full && |w.blocks| >= |fs[f].tags[t].blocks| && GrownTo(fs, f, t, w, files, space)
  }

  lemma GrowingStart(fs: seq<File>, f: nat, t: nat, space: Space, first: int, bad: set<nat>)
    requires f < |fs| && t < |fs[f].tags|
    ensures Growing(fs, f, t, Grow(fs[f].tags[t].blocks, space, first, 0, bad), fs, space)
  {
    var tag := fs[f].tags[t];
    PutTagLaws(fs, f, t, tag, tag);
    assert GrownTag(tag, Work(tag.blocks, space, false)) == tag;
  }

  lemma GrowingEnd(fs: seq<File>, f: nat, t: nat, w: Work, files: seq<File>, space: Space)
    requires f < |fs| && t < |fs[f].tags| && Growing(fs, f, t, w, files, space)
    ensures !w.full && GrownTo(fs, f, t, w, files, space)
  {
  }

  lemma GrowUnfolds(blocks: seq<LogicalBlock>, space: Space, first: int, n: nat, bad: set<nat>)
    requires n > 0
    ensures Grow(blocks, space, first, n, bad) == GrowStep(Grow(blocks, space, first, n - 1, bad), first + n - 1, n - 1 !in bad)
  {
    hide GrowStep;
  }

  lemma OnceGrows(fs: seq<File>, f: nat, t: nat, w: Work, number: int, linked: bool,
                  files: seq<File>, space: Space, full: bool, files': seq<File>, space': Space)
    requires f < |fs| && t < |fs[f].tags| && Growing(fs, f, t, w, files, space)
    requires f < |files| && t < |files[f].tags| && space.physical != []
    requires Once(files, f, t, space, number, linked, full, files', space')
    ensures f < |files'| && t < |files'[f].tags|
    ensures var next := GrowStep(w, number, linked);
            && full == next.full && GrownTo(fs, f, t, next, files', space')
            && (!full ==> Growing(fs, f, t, next, files', space'))
  {
    var tag := fs[f].tags[t];
    var next := GrowStep(w, number, linked);
    PutTagLaws(fs, f, t, GrownTag(tag, w), GrownTag(tag, next));
    PutTagLaws(fs, f, t, GrownTag(tag, next), tag);
    if linked && LeastFree(space.bitmap).Some? {
      LinkedTag(tag, w, number, LeastFree(space.bitmap).value);
      hide PutTag, Mark, Recount, LeastFree, GrownTag, Listed, LogicalName;
    } else {
      assert GrownTag(tag, next) == GrownTag(tag, w);
      hide PutTag, LeastFree, GrownTag;
    }
  }

  lemma GrowTurned(fs: seq<File>, f: nat, t: nat, start: Space, first: int, i: nat, n: nat, bad: set<nat>,
                   files: seq<File>, space: Space, full: bool, files': seq<File>, space': Space)
    requires f < |fs| && t < |fs[f].tags| && i < n
    requires Growing(fs, f, t, Grow(fs[f].tags[t].blocks, start, first, i, bad), files, space)
    requires f < |files| && t < |files[f].tags| && space.physical != []
    requires Once(files, f, t, space, first + i, i !in bad, full, files', space')
    ensures f < |files'| && t < |files'[f].tags|
    ensures var w := Grow(fs[f].tags[t].blocks, start, first, if full then n else i + 1, bad);
            if full then w.full && GrownTo(fs, f, t, w, files', space') else Growing(fs, f, t, w, files', space')
  {
    hide *;
    var blocks := fs[f].tags[t].blocks;
    GrowUnfolds(blocks, start, first, i + 1, bad);
    OnceGrows(fs, f, t, Grow(blocks, start, first, i, bad), first + i, i !in bad, files, space, full, files', space');
    if full {
      GrowFull(blocks, start, first, i + 1, n, bad);
    }
  }

  // A linked block on the tag grown so far.
  lemma LinkedTag(tag: Tag, w: Work, number: int, k: nat)
    requires |w.blocks| >= |tag.blocks| && w.space.physical != []
    ensures var x := Extended(w, number, k);
            var now := GrownTag(tag, w);
            && GrownTag(tag, x) == now.(blocks := now.blocks + [LogicalBlock(LogicalName(number), BLOCK_ZERO)], used := Listed(now.used, 0))
            && x.space == Space(Recount(w.space.physical, 0, 1), Mark(w.space.bitmap, k, true))
            && |x.blocks| >= |tag.blocks|
  {
    hide LogicalName, Mark, Recount;
  }

  // A tag after the loops of TRUNCATE.
  ghost function GrownTag(tag: Tag, w: Work): Tag {
    tag.(blocks := w.blocks, used := UsedGrown(tag.used, |w.blocks| > |tag.blocks|))
  }

  ghost function ShrunkTag(tag: Tag, space: Space, n: nat): Tag {
    tag.(blocks := Shrink(tag.blocks, space, n).blocks, used := UsedShrunk(tag.blocks, space, tag.used, n))
  }

  ghost function ResizedTag(tag: Tag, space: Space, bytes: int, bs: nat, bad: set<nat>): Tag
    requires bs > 0
  {
    tag.(blocks := Resize(tag, space, bytes, bs, bad).blocks, used := UsedResized(tag, space, bytes, bs, bad))
  }

  // Writing a tag back: a second write replaces the first, and writing what is there changes nothing.
  lemma PutTagLaws(files: seq<File>, f: nat, t: nat, a: Tag, b: Tag)
    requires f < |files| && t < |files[f].tags|
    ensures var g := PutTag(files, f, t, a);
            |g| == |files| && |g[f].tags| == |files[f].tags| && g[f].tags[t] == a && PutTag(g, f, t, b) == PutTag(files, f, t, b)
    ensures PutTag(files, f, t, files[f].tags[t]) == files
  {
    assert files[f].tags[t := a][t := b] == files[f].tags[t := b];
    assert files[f].tags[t := files[f].tags[t]] == files[f].tags;
  }

  // Out of space: the remaining iterations change nothing.
  lemma {:induction false} GrowFull(blocks: seq<LogicalBlock>, space: Space, first: int, m: nat, n: nat, bad: set<nat>)
    requires m <= n && Grow(blocks, space, first, m, bad).full
    ensures Grow(blocks, space, first, n, bad) == Grow(blocks, space, first, m, bad)
    decreases n
  {
    if m < n {
      GrowFull(blocks, space, first, m, n - 1, bad);
    }
  }
}
