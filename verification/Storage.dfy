/** Storage's metadata: files, tags, logical blocks, reference counts, bitmap and hash index, with the
    effect of every request that changes them. Block contents are not part of it. */
module Storage {
  import opened Common
  import opened BlockNames

  datatype LogicalBlock = LogicalBlock(name: string, physical: string)
  datatype Status = WorkInProgress | Committed

  /** `used` is the metadata's list of used physical blocks, by number (blocks_fisicos_usados). */
  datatype Tag = Tag(name: string, size: int, status: Status, blocks: seq<LogicalBlock>, used: seq<nat>)

  datatype File = File(name: string, tags: seq<Tag>)
  datatype Physical = Physical(path: string, count: int)

  /** What TRUNCATE, TAG and COMMIT change besides a tag's own blocks. */
  datatype Space = Space(physical: seq<Physical>, bitmap: seq<bool>)

  datatype Disk = Disk(files: seq<File>, space: Space, index: map<string, string>)

  function IsPath(path: string): Physical -> bool { (x: Physical) => x.path == path }

  // buscar_index_blockFisico
  function FindPhysical(physical: seq<Physical>, path: string): (r: Option<nat>)
    ensures r.Some? ==> r.value < |physical| && physical[r.value].path == path
    ensures forall i :: 0 <= i < |physical| && physical[i].path == path ==> r.Some? && r.value <= i
  {
    FirstIsFirst(physical, IsPath(path));
    First(physical, IsPath(path))
  }

  function Free(): bool -> bool { (x: bool) => !x }

  // bitmap_encontrar_bloque_libre
  function LeastFree(bitmap: seq<bool>): (r: Option<nat>)
    ensures r.Some? ==> r.value < |bitmap| && !bitmap[r.value]
    ensures forall i :: 0 <= i < |bitmap| && !bitmap[i] ==> r.Some? && r.value <= i
  {
    FirstIsFirst(bitmap, Free());
    First(bitmap, Free())
  }

  function Recount(physical: seq<Physical>, i: nat, delta: int): seq<Physical>
    requires i < |physical|
  {
    physical[i := Physical(physical[i].path, physical[i].count + delta)]
  }

  function Mark(bitmap: seq<bool>, i: nat, used: bool): seq<bool> {
    if i < |bitmap| then bitmap[i := used] else bitmap
  }

  // One reference less; a block other than block 0 that nobody references is freed.
  function Drop(space: Space, path: string): Space {
    match FindPhysical(space.physical, path)
    case None => space
    case Some(i) =>
      var physical := Recount(space.physical, i, -1);
      Space(physical, if physical[i].count == 0 && i != 0 then Mark(space.bitmap, i, false) else space.bitmap)
  }

  // The block that dropping `path` frees.
  function Freed(space: Space, path: string): Option<nat> {
    match FindPhysical(space.physical, path)
    case None => None
    case Some(i) => if space.physical[i].count == 1 && i != 0 then Some(i) else None
  }

  // One reference more.
  function Reference(space: Space, path: string): Space {
    match FindPhysical(space.physical, path)
    case None => space
    case Some(i) => space.(physical := Recount(space.physical, i, 1))
  }

  /** A tag's blocks while an operation works on them. */
  datatype Work = Work(blocks: seq<LogicalBlock>, space: Space, full: bool)

  const BLOCK_ZERO := "block0000"

  // One block linked: bit k is taken, but the block is recorded on block 0.
  function Extended(w: Work, number: int, k: nat): Work {
    Work(w.blocks + [LogicalBlock(LogicalName(number), BLOCK_ZERO)],
         Space(if w.space.physical == [] then [] else Recount(w.space.physical, 0, 1), Mark(w.space.bitmap, k, true)),
         false)
  }

  // One more block under that number: stops when no bit is free; a failed link gives the bit back.
  function GrowStep(w: Work, number: int, linked: bool): Work {
    if w.full then w
    else
      match LeastFree(w.space.bitmap)
      case None => w.(full := true)
      case Some(k) => if linked then Extended(w, number, k) else w
  }

  /** TRUNCATE growing by n blocks numbered from `first`; the links of the iterations in `bad` fail. */
  function Grow(blocks: seq<LogicalBlock>, space: Space, first: int, n: nat, bad: set<nat>): Work {
    if n == 0 then Work(blocks, space, false)
    else GrowStep(Grow(blocks, space, first, n - 1, bad), first + n - 1, n - 1 !in bad)
  }

  // TRUNCATE shrinking by n blocks, last first.
  function Shrink(blocks: seq<LogicalBlock>, space: Space, n: nat): Work {
    if n == 0 then Work(blocks, space, false)
    else
      var w := Shrink(blocks, space, n - 1);
      if w.blocks == [] then w
      else
        var last := |w.blocks| - 1;
        Work(w.blocks[..last], Drop(w.space, w.blocks[last].physical), false)
  }

  // quitar_del_array_blocks
  function Without(used: seq<nat>, i: nat): seq<nat> {
    if used == [] then []
    else
      var n := |used| - 1;
      Without(used[..n], i) + if used[n] == i then [] else [used[n]]
  }

  // The used blocks after such a shrink: those that were freed are taken off the list.
  function UsedShrunk(blocks: seq<LogicalBlock>, space: Space, used: seq<nat>, n: nat): seq<nat> {
    if n == 0 then used
    else
      var w := Shrink(blocks, space, n - 1);
      var u := UsedShrunk(blocks, space, used, n - 1);
      if w.blocks == [] then u
      else
        match Freed(w.space, w.blocks[|w.blocks| - 1].physical)
        case None => u
        case Some(i) => Without(u, i)
  }

  // The used blocks after a grow: block 0 is listed once anything was added.
  function UsedGrown(used: seq<nat>, added: bool): seq<nat> {
    if added && 0 !in used then used + [0] else used
  }

  // TAG copying the first n blocks; the links in `bad` fail.
  function Copy(blocks: seq<LogicalBlock>, space: Space, n: nat, bad: set<nat>): Work
    requires n <= |blocks|
  {
    if n == 0 then Work([], space, false)
    else
      var w := Copy(blocks, space, n - 1, bad);
      if n - 1 in bad then w
      else Work(w.blocks + [blocks[n - 1]], Reference(w.space, blocks[n - 1].physical), false)
  }

  datatype Deduped = Deduped(blocks: seq<LogicalBlock>, space: Space, index: map<string, string>)

  // procesar_bloque_commit on block i, whose content hashes to `hash`.
  function CommitBlock(d: Deduped, i: nat, hash: string): (r: Deduped)
    requires i < |d.blocks|
    ensures |r.blocks| == |d.blocks|
  {
    if hash !in d.index then d.(index := d.index[hash := d.blocks[i].physical])
    else if d.index[hash] == d.blocks[i].physical then d
    else
      Deduped(d.blocks[i := d.blocks[i].(physical := d.index[hash])],
              Reference(Drop(d.space, d.blocks[i].physical), d.index[hash]), d.index)
  }

  // COMMIT on the first n blocks.
  function CommitBlocks(d: Deduped, n: nat, hashes: nat -> string): (r: Deduped)
    requires n <= |d.blocks|
    ensures |r.blocks| == |d.blocks|
  {
    if n == 0 then d else CommitBlock(CommitBlocks(d, n - 1, hashes), n - 1, hashes(n - 1))
  }

  function IsFile(name: string): File -> bool { (x: File) => x.name == name }

  // buscar_index_file
  function FindFile(files: seq<File>, name: string): (r: Option<nat>)
    ensures r.Some? ==> r.value < |files| && files[r.value].name == name
    ensures forall i :: 0 <= i < |files| && files[i].name == name ==> r.Some? && r.value <= i
  {
    FirstIsFirst(files, IsFile(name));
    First(files, IsFile(name))
  }

  function IsTag(name: string): Tag -> bool { (x: Tag) => x.name == name }

  function FindTag(tags: seq<Tag>, name: string): (r: Option<nat>)
    ensures r.Some? ==> r.value < |tags| && tags[r.value].name == name
    ensures forall i :: 0 <= i < |tags| && tags[i].name == name ==> r.Some? && r.value <= i
  {
    FirstIsFirst(tags, IsTag(name));
    First(tags, IsTag(name))
  }

  // buscar_tag: positions of the file and of the tag.
  function Locate(files: seq<File>, file: string, tag: string): (r: Option<(nat, nat)>)
    ensures r.Some? ==> r.value.0 < |files| && r.value.1 < |files[r.value.0].tags|
  {
    match FindFile(files, file)
    case None => None
    case Some(f) =>
      match FindTag(files[f].tags, tag)
      case None => None
      case Some(t) => Some((f, t))
  }

  function PutTag(files: seq<File>, f: nat, t: nat, tag: Tag): seq<File>
    requires f < |files| && t < |files[f].tags|
  {
    files[f := files[f].(tags := files[f].tags[t := tag])]
  }

  function AddTag(files: seq<File>, f: nat, tag: Tag): seq<File>
    requires f < |files|
  {
    files[f := files[f].(tags := files[f].tags + [tag])]
  }

  // CREATE: a File entry is added even when the file exists; the tag goes to the first of that name.
  function Create(d: Disk, file: string, tag: string): (int, Disk) {
    if Locate(d.files, file, tag).Some? then (-1, d)
    else
      var files := d.files + [File(file, [])];
      var f := FindFile(files, file);
      if f.None? then (-1, d.(files := files))
      else (0, d.(files := AddTag(files, f.value, Tag(tag, 0, WorkInProgress, [], []))))
  }

  // The conversion of an int to uint32_t, and of the quotient back to int.
  function Unsigned(x: int): nat { x % U32 }
  function Signed(x: nat): int { if x < U32 / 2 then x else x - U32 }

  // How many blocks a size stands for.
  function BlockCount(size: int, bs: nat): int
    requires bs > 0
  {
    Signed(Unsigned(size) / bs)
  }

  function Resize(tag: Tag, space: Space, bytes: int, bs: nat, bad: set<nat>): Work
    requires bs > 0
  {
    var now, wanted := BlockCount(tag.size, bs), BlockCount(bytes, bs);
    if wanted > now then Grow(tag.blocks, space, now, wanted - now, bad)
    else Shrink(tag.blocks, space, now - wanted)
  }

  function UsedResized(tag: Tag, space: Space, bytes: int, bs: nat, bad: set<nat>): seq<nat>
    requires bs > 0
  {
    var now, wanted := BlockCount(tag.size, bs), BlockCount(bytes, bs);
    if wanted > now then UsedGrown(tag.used, |Resize(tag, space, bytes, bs, bad).blocks| > |tag.blocks|)
    else UsedShrunk(tag.blocks, space, tag.used, now - wanted)
  }

  function Truncate(d: Disk, bs: nat, file: string, tag: string, bytes: int, bad: set<nat>): (int, Disk)
    requires bs > 0
  {
    if Unsigned(bytes) % bs != 0 then (-1, d)
    else
      match Locate(d.files, file, tag)
      case None => (1, d)
      case Some((f, t)) =>
        var before := d.files[f].tags[t];
        if before.status.Committed? then (-1, d)
        else
          var w := Resize(before, d.space, bytes, bs, bad);
          var resized := before.(blocks := w.blocks, used := UsedResized(before, d.space, bytes, bs, bad));
          if w.full then (-1, d.(files := PutTag(d.files, f, t, resized), space := w.space))
          else
            var done := resized.(size := bytes, used := if bytes == 0 then [] else resized.used);
            (0, d.(files := PutTag(d.files, f, t, done), space := w.space))
  }

  function TagFile(d: Disk, file: string, tag: string, toFile: string, toTag: string, bad: set<nat>): (int, Disk) {
    match Locate(d.files, file, tag)
    case None => (-1, d)
    case Some((f, t)) =>
      var origin := d.files[f].tags[t];
      var files := if FindFile(d.files, toFile).None? then d.files + [File(toFile, [])] else d.files;
      var w := Copy(origin.blocks, d.space, |origin.blocks|, bad);
      match FindFile(files, toFile)
      case None => (-1, d)
      case Some(g) => (0, d.(files := AddTag(files, g, Tag(toTag, origin.size, WorkInProgress, w.blocks, origin.used)), space := w.space))
  }

  function Commit(d: Disk, file: string, tag: string, hashes: nat -> string): (int, Disk) {
    match Locate(d.files, file, tag)
    case None => (-1, d)
    case Some((f, t)) =>
      var before := d.files[f].tags[t];
      if before.status.Committed? then (1, d)
      else
        var c := CommitBlocks(Deduped(before.blocks, d.space, d.index), |before.blocks|, hashes);
        (0, Disk(PutTag(d.files, f, t, before.(status := Committed, blocks := c.blocks)), c.space, c.index))
  }

  function RemoveTag(files: seq<File>, f: nat, t: nat): seq<File>
    requires f < |files| && t < |files[f].tags|
  {
    files[f := files[f].(tags := files[f].tags[..t] + files[f].tags[t + 1..])]
  }

  // _nameBloque: the empty string past the last physical block.
  function NumberedName(count: nat, n: nat): string {
    if n < count then PhysicalName(n) else ""
  }

  // DELETE drops one reference for each entry of the metadata's list, last first.
  function Discard(space: Space, used: seq<nat>): Space
    decreases |used|
  {
    if used == [] then space
    else
      var n := |used| - 1;
      Discard(Drop(space, NumberedName(|space.physical|, used[n])), used[..n])
  }

  // DELETE never looks at the status; it answers OK also when there is nothing to delete.
  function Delete(d: Disk, file: string, tag: string): Disk {
    match Locate(d.files, file, tag)
    case None => d
    case Some((f, t)) => d.(files := RemoveTag(d.files, f, t), space := Discard(d.space, d.files[f].tags[t].used))
  }

  // WRITE_BLOCK: of the metadata it only takes the old content's hash off the index.
  function WriteBlock(d: Disk, bs: nat, file: string, tag: string, number: nat, length: nat, hash: string, ok: bool): (int, Disk) {
    match Locate(d.files, file, tag)
    case None => (-1, d)
    case Some((f, t)) =>
      var blocks := d.files[f].tags[t].blocks;
      if number >= |blocks| || length > bs || FindPhysical(d.space.physical, blocks[number].physical).None? || !ok then (-1, d)
      else (0, d.(index := d.index - {hash}))
  }

  /** The requests that change metadata; `bad`, `hashes`, `hash` and `ok` are what the file system
      answers. */
  datatype Request =
    | CreateFile(file: string, tag: string)
    | TruncateFile(file: string, tag: string, bytes: int, bad: set<nat>)
    | CopyTag(file: string, tag: string, toFile: string, toTag: string, bad: set<nat>)
    | CommitTag(file: string, tag: string, hashes: nat -> string)
    | DeleteTag(file: string, tag: string)
    | WritePage(file: string, tag: string, number: nat, length: nat, hash: string, ok: bool)

  function Serve(d: Disk, bs: nat, r: Request): (int, Disk)
    requires bs > 0
  {
    match r
    case CreateFile(file, tag) => Create(d, file, tag)
    case TruncateFile(file, tag, bytes, bad) => Truncate(d, bs, file, tag, bytes, bad)
    case CopyTag(file, tag, toFile, toTag, bad) => TagFile(d, file, tag, toFile, toTag, bad)
    case CommitTag(file, tag, hashes) => Commit(d, file, tag, hashes)
    case DeleteTag(file, tag) => (0, Delete(d, file, tag))
    case WritePage(file, tag, number, length, hash, ok) => WriteBlock(d, bs, file, tag, number, length, hash, ok)
  }

  function After(d: Disk, bs: nat, requests: seq<Request>): Disk
    requires bs > 0
    decreases |requests|
  {
    if requests == [] then d else After(Serve(d, bs, requests[0]).1, bs, requests[1..])
  }

  /** A fresh start: `count` blocks, of which block 0 is referenced by initial_file:BASE and marked. */
  function FreshDisk(count: nat, bs: nat): Disk
    requires count > 0
  {
    Disk([File("initial_file", [Tag("BASE", bs, Committed, [LogicalBlock("000000.dat", BLOCK_ZERO)], [0])])],
         Space(seq(count, i requires 0 <= i < count => Physical(PhysicalName(i), if i == 0 then 1 else 0)),
               seq((count + 7) / 8 * 8, i => i == 0)),
         map[])
  }
}
