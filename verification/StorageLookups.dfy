/** What each Storage request changes for whoever looks a file:tag up, and what it leaves alone. */
module StorageLookups {
  import opened Common
  import opened Storage

  /** The tag a file:tag names: the first of that name in the first file of that name. */
  function TagOf(files: seq<File>, file: string, tag: string): Option<Tag> {
    match Locate(files, file, tag)
    case None => None
    case Some((f, t)) => Some(files[f].tags[t])
  }

  lemma FirstOfAppended<T>(s: seq<T>, x: T, p: T -> bool)
    ensures First(s + [x], p) == if First(s, p).Some? then First(s, p) else if p(x) then Some(|s|) else None
  {
    assert (s + [x])[..|s|] == s;
  }

  // A search depends only on which elements satisfy the test.
  lemma {:induction false} FirstSame<T>(s: seq<T>, t: seq<T>, p: T -> bool)
    requires |s| == |t| && forall i :: 0 <= i < |s| ==> p(s[i]) == p(t[i])
    ensures First(s, p) == First(t, p)
  {
    if s != [] {
      FirstSame(s[..|s| - 1], t[..|t| - 1], p);
    }
  }

  lemma AddFileTagOf(files: seq<File>, name: string, file: string, tag: string)
    ensures TagOf(files + [File(name, [])], file, tag) == TagOf(files, file, tag)
  {
    FirstOfAppended(files, File(name, []), IsFile(file));
    hide First;
    assert FindTag([], tag).None?;
  }

  // A tag added to the first file of its name is found only if no tag of that name was.
  lemma AddTagTagOf(files: seq<File>, g: nat, added: Tag, file: string, tag: string)
    requires g < |files| && FindFile(files, files[g].name) == Some(g)
    ensures TagOf(AddTag(files, g, added), file, tag) ==
            if TagOf(files, file, tag).Some? then TagOf(files, file, tag)
            else if file == files[g].name && tag == added.name then Some(added) else None
  {
    var after := AddTag(files, g, added);
    FirstSame(files, after, IsFile(file));
    var f := FindFile(files, file);
    if f == Some(g) {
      FirstOfAppended(files[g].tags, added, IsTag(tag));
    } else if f.Some? {
      assert after[f.value] == files[f.value];
    }
    hide First;
  }

  // Changing a found tag, not its name, changes the lookups that find it and no other.
  lemma PutTagTagOf(files: seq<File>, f: nat, t: nat, changed: Tag, file: string, tag: string)
    requires f < |files| && t < |files[f].tags| && changed.name == files[f].tags[t].name
    ensures Locate(PutTag(files, f, t, changed), file, tag) == Locate(files, file, tag)
    ensures TagOf(PutTag(files, f, t, changed), file, tag) ==
            if Locate(files, file, tag) == Some((f, t)) then Some(changed) else TagOf(files, file, tag)
  {
    var after := PutTag(files, f, t, changed);
    FirstSame(files, after, IsFile(file));
    FirstSame(files[f].tags, after[f].tags, IsTag(tag));
    hide First;
  }

  // Two names that find the same tag are the same name.
  lemma LocateNames(files: seq<File>, file: string, tag: string, other: string, otherTag: string)
    requires Locate(files, file, tag).Some? && Locate(files, other, otherTag) == Locate(files, file, tag)
    ensures file == other && tag == otherTag
  {
    hide First;
  }

  /** CREATE succeeds if and only if the file:tag did not exist; then it names an empty open tag, and no
      other lookup changes. */
  lemma CreateVisible(d: Disk, file: string, tag: string, x: string, y: string)
    ensures var (rc, r) := Create(d, file, tag);
            && rc == (if TagOf(d.files, file, tag).None? then 0 else -1)
            && TagOf(r.files, x, y) == if rc == 0 && x == file && y == tag then Some(Tag(tag, 0, WorkInProgress, [], [])) else TagOf(d.files, x, y)
  {
    var files := d.files + [File(file, [])];
    FirstOfAppended(d.files, File(file, []), IsFile(file));
    AddFileTagOf(d.files, file, x, y);
    AddFileTagOf(d.files, file, file, tag);
    var g := FindFile(files, file);
    if g.Some? {
      AddTagTagOf(files, g.value, Tag(tag, 0, WorkInProgress, [], []), x, y);
    }
    hide First, AddTag;
  }

  // The first n blocks whose link succeeds, in order.
  function Linked(blocks: seq<LogicalBlock>, n: nat, bad: set<nat>): seq<LogicalBlock>
    requires n <= |blocks|
  {
    if n == 0 then [] else Linked(blocks, n - 1, bad) + if n - 1 in bad then [] else [blocks[n - 1]]
  }

  lemma {:induction false} CopyLinks(blocks: seq<LogicalBlock>, space: Space, n: nat, bad: set<nat>)
    requires n <= |blocks|
    ensures Copy(blocks, space, n, bad).blocks == Linked(blocks, n, bad)
  {
    if n > 0 {
      CopyLinks(blocks, space, n - 1, bad);
      hide Reference;
    }
  }

  lemma {:induction false} AllLinked(blocks: seq<LogicalBlock>, n: nat)
    requires n <= |blocks|
    ensures Linked(blocks, n, {}) == blocks[..n]
  {
    if n > 0 {
      AllLinked(blocks, n - 1);
      assert blocks[..n] == blocks[..n - 1] + [blocks[n - 1]];
    }
  }

  /** TAG succeeds if and only if the origin exists. A file:tag that did not exist then names an open tag
      of the origin's size, with exactly those of its blocks whose link succeeded, in order: all of them
      if every link did. One that existed keeps its meaning, as every other does. */
  lemma TagFileVisible(d: Disk, file: string, tag: string, toFile: string, toTag: string, bad: set<nat>, x: string, y: string)
    ensures var (rc, r) := TagFile(d, file, tag, toFile, toTag, bad);
            var origin := TagOf(d.files, file, tag);
            && rc == (if origin.Some? then 0 else -1)
            && (TagOf(d.files, x, y).Some? || rc != 0 || x != toFile || y != toTag ==> TagOf(r.files, x, y) == TagOf(d.files, x, y))
            && (TagOf(d.files, toFile, toTag).None? && rc == 0 ==>
                  && (TagOf(r.files, toFile, toTag) ==
                      Some(Tag(toTag, origin.value.size, WorkInProgress, Linked(origin.value.blocks, |origin.value.blocks|, bad), origin.value.used)))
                  && (bad == {} ==> Linked(origin.value.blocks, |origin.value.blocks|, bad) == origin.value.blocks))
  {
    var at := Locate(d.files, file, tag);
    if at.Some? {
      var origin := d.files[at.value.0].tags[at.value.1];
      var w := Copy(origin.blocks, d.space, |origin.blocks|, bad);
      CopyLinks(origin.blocks, d.space, |origin.blocks|, bad);
      AllLinked(origin.blocks, |origin.blocks|);
      assert origin.blocks[..|origin.blocks|] == origin.blocks;
      var files := if FindFile(d.files, toFile).None? then d.files + [File(toFile, [])] else d.files;
      FirstOfAppended(d.files, File(toFile, []), IsFile(toFile));
      AddFileTagOf(d.files, toFile, x, y);
      AddFileTagOf(d.files, toFile, toFile, toTag);
      hide First, Copy, Linked, AddTag, Locate;
      var g := FindFile(files, toFile).value;
      var added := Tag(toTag, origin.size, WorkInProgress, w.blocks, origin.used);
      AddTagTagOf(files, g, added, x, y);
      AddTagTagOf(files, g, added, toFile, toTag);
    }
  }

  /** TRUNCATE changes no other lookup, keeps name and status, and the size only when it returns 0; it
      returns 1 if and only if the size is a multiple of BLOCK_SIZE and the file:tag does not exist. */
  lemma TruncateVisible(d: Disk, bs: nat, file: string, tag: string, bytes: int, bad: set<nat>, x: string, y: string)
    requires bs > 0
    ensures var (rc, r) := Truncate(d, bs, file, tag, bytes, bad);
            var before, after := TagOf(d.files, file, tag), TagOf(r.files, file, tag);
            && (x != file || y != tag ==> TagOf(r.files, x, y) == TagOf(d.files, x, y))
            && (before.Some? ==> after.Some? && after.value.name == before.value.name && after.value.status == before.value.status)
            && (before.Some? ==> after.value.size == if rc == 0 then bytes else before.value.size)
            && (before.Some? && before.value.status.Committed? ==> rc == -1 && r == d)
            && (rc == 1 <==> Unsigned(bytes) % bs == 0 && before.None?)
  {
    var at := Locate(d.files, file, tag);
    if at.Some? {
      var (f, t) := at.value;
      var before := d.files[f].tags[t];
      var used := UsedResized(before, d.space, bytes, bs, bad);
      var full := before.(blocks := Resize(before, d.space, bytes, bs, bad).blocks, used := used);
      var done := full.(size := bytes, used := if bytes == 0 then [] else used);
      hide First, Resize, UsedResized, PutTag;
      PutTagTagOf(d.files, f, t, full, file, tag);
      PutTagTagOf(d.files, f, t, done, file, tag);
      PutTagTagOf(d.files, f, t, full, x, y);
      PutTagTagOf(d.files, f, t, done, x, y);
      if Locate(d.files, x, y) == at {
        LocateNames(d.files, file, tag, x, y);
      }
    }
  }

  lemma CommitBlockKeepsNames(d: Deduped, n: nat, hash: string)
    requires n < |d.blocks|
    ensures forall i :: 0 <= i < |d.blocks| ==> CommitBlock(d, n, hash).blocks[i].name == d.blocks[i].name
  {
    hide Drop, Reference;
  }

  lemma {:induction false} CommitKeepsNames(d: Deduped, n: nat, hashes: nat -> string)
    requires n <= |d.blocks|
    ensures forall i :: 0 <= i < |d.blocks| ==> CommitBlocks(d, n, hashes).blocks[i].name == d.blocks[i].name
  {
    hide CommitBlock;
    if n > 0 {
      CommitKeepsNames(d, n - 1, hashes);
      CommitBlockKeepsNames(CommitBlocks(d, n - 1, hashes), n - 1, hashes(n - 1));
    }
  }

  /** COMMIT changes no other lookup and closes an open tag, keeping its size and its blocks' names; on a
      closed tag it returns 1 and changes nothing. */
  lemma CommitVisible(d: Disk, file: string, tag: string, hashes: nat -> string, x: string, y: string)
    ensures var (rc, r) := Commit(d, file, tag, hashes);
            var before, after := TagOf(d.files, file, tag), TagOf(r.files, file, tag);
            && rc == (if before.None? then -1 else if before.value.status.Committed? then 1 else 0)
            && (rc != 0 ==> r == d)
            && (x != file || y != tag ==> TagOf(r.files, x, y) == TagOf(d.files, x, y))
            && (rc == 0 ==> after.Some? && after.value.status.Committed? && after.value.size == before.value.size
                            && |after.value.blocks| == |before.value.blocks|
                            && forall i :: 0 <= i < |before.value.blocks| ==> after.value.blocks[i].name == before.value.blocks[i].name)
  {
    var at := Locate(d.files, file, tag);
    if at.Some? {
      var (f, t) := at.value;
      var before := d.files[f].tags[t];
      var start := Deduped(before.blocks, d.space, d.index);
      CommitKeepsNames(start, |before.blocks|, hashes);
      var closed := before.(status := Committed, blocks := CommitBlocks(start, |before.blocks|, hashes).blocks);
      hide First, CommitBlocks, PutTag;
      PutTagTagOf(d.files, f, t, closed, file, tag);
      PutTagTagOf(d.files, f, t, closed, x, y);
      if Locate(d.files, x, y) == at {
        LocateNames(d.files, file, tag, x, y);
      }
    }
  }

  lemma FirstUnfolds<T>(s: seq<T>, p: T -> bool)
    requires s != []
    ensures var n := |s| - 1;
            First(s, p) == if First(s[..n], p).Some? then First(s[..n], p) else if p(s[n]) then Some(n) else None
  {
  }

  lemma JoinedSlices<T>(a: seq<T>, b: seq<T>)
    requires b != []
    ensures (a + b)[..|a + b| - 1] == a + b[..|b| - 1] && (a + b)[|a + b| - 1] == b[|b| - 1]
  {
  }

  // Searching a joined sequence.
  lemma {:induction false} FirstOfJoined<T>(a: seq<T>, b: seq<T>, p: T -> bool)
    ensures First(a + b, p) ==
            if First(a, p).Some? then First(a, p)
            else if First(b, p).Some? then Some(|a| + First(b, p).value) else None
    decreases |b|
  {
    if b == [] {
      assert a + b == a;
      assert First(b, p) == None;
    } else {
      hide First;
      var n := |b| - 1;
      FirstOfJoined(a, b[..n], p);
      FirstUnfolds(a + b, p);
      FirstUnfolds(b, p);
      JoinedSlices(a, b);
    }
  }

  /** The tag a DELETE of file:tag uncovers: the next of that name in that file. TAG onto an existing
      destination leaves such hidden tags behind. */
  function Uncovered(files: seq<File>, file: string, tag: string): Option<Tag> {
    match Locate(files, file, tag)
    case None => None
    case Some((f, t)) =>
      match FindTag(files[f].tags[t + 1..], tag)
      case None => None
      case Some(k) => Some(files[f].tags[t + 1 + k])
  }

  // The two searches, before and after x is taken out from between a and b.
  lemma FoundAround(a: seq<Tag>, x: Tag, b: seq<Tag>, y: string)
    ensures FindTag(a + [x] + b, y) ==
            if FindTag(a, y).Some? then FindTag(a, y) else if x.name == y then Some(|a|)
            else if FindTag(b, y).Some? then Some(|a| + 1 + FindTag(b, y).value) else None
    ensures FindTag(a + b, y) ==
            if FindTag(a, y).Some? then FindTag(a, y)
            else if FindTag(b, y).Some? then Some(|a| + FindTag(b, y).value) else None
  {
    hide First;
    FirstOfJoined(a + [x], b, IsTag(y));
    FirstOfAppended(a, x, IsTag(y));
    FirstOfJoined(a, b, IsTag(y));
  }

  // Taking out one tag: the searches that found it find the next, the others what they found.
  lemma RemovedFound(tags: seq<Tag>, t: nat, y: string)
    requires t < |tags|
    ensures var rest := tags[..t] + tags[t + 1..];
            if FindTag(tags, y) == Some(t) then
              match FindTag(tags[t + 1..], y)
              case None => FindTag(rest, y) == None
              case Some(k) => FindTag(rest, y) == Some(t + k) && rest[t + k] == tags[t + 1 + k]
            else if tags[t].name == y then
              FindTag(tags, y).Some? && FindTag(tags, y).value < t && FindTag(rest, y) == FindTag(tags, y)
            else
              match FindTag(tags, y)
              case None => FindTag(rest, y) == None
              case Some(k) => FindTag(rest, y).Some? && FindTag(rest, y).value < |rest| && rest[FindTag(rest, y).value] == tags[k]
  {
    var a, x, b := tags[..t], tags[t], tags[t + 1..];
    assert tags == a + [x] + b;
    FoundAround(a, x, b, y);
    hide FindTag;
  }

  /** DELETE leaves the file:tag naming the hidden tag it uncovers, or none, whatever its status was; no
      other lookup changes. */
  lemma DeleteVisible(d: Disk, file: string, tag: string, x: string, y: string)
    ensures TagOf(Delete(d, file, tag).files, x, y) ==
            if x == file && y == tag then Uncovered(d.files, file, tag) else TagOf(d.files, x, y)
  {
    var at := Locate(d.files, file, tag);
    if at.Some? {
      var (f, t) := at.value;
      var after := RemoveTag(d.files, f, t);
      FirstSame(d.files, after, IsFile(x));
      if FindFile(d.files, x) == Some(f) {
        RemovedFound(d.files[f].tags, t, y);
      }
      hide First, Discard;
    }
  }

  /** WRITE changes no lookup. */
  lemma WriteVisible(d: Disk, bs: nat, r: Request)
    requires bs > 0 && r.WritePage?
    ensures Serve(d, bs, r).1.files == d.files && Serve(d, bs, r).1.space == d.space
  {
    hide Locate, FindPhysical;
  }

  /** WRITE returns 0 if and only if the block exists, the data fits a block, its physical block is known and
      the file system takes the bytes; then the old content's hash leaves the index. Otherwise it returns -1
      and changes nothing. */
  lemma WriteExact(d: Disk, bs: nat, file: string, tag: string, number: nat, length: nat, hash: string, ok: bool)
    ensures var (rc, r) := WriteBlock(d, bs, file, tag, number, length, hash, ok);
            var x := TagOf(d.files, file, tag);
            && (rc == 0 <==> ok && length <= bs && x.Some? && number < |x.value.blocks| &&
                             exists i :: 0 <= i < |d.space.physical| && d.space.physical[i].path == x.value.blocks[number].physical)
            && (rc != 0 ==> rc == -1 && r == d)
            && (rc == 0 ==> hash !in r.index && forall h :: h != hash ==>
                              (h in r.index <==> h in d.index) && (h in d.index ==> r.index[h] == d.index[h]))
  {
    hide Locate, First;
  }

  /** Only COMMIT and WRITE touch the index, CREATE and WRITE touch no block, and TAG takes no bit. */
  lemma LeftAlone(d: Disk, bs: nat, r: Request)
    requires bs > 0
    ensures var e := Serve(d, bs, r).1;
            && (!r.CommitTag? && !r.WritePage? ==> e.index == d.index)
            && (r.CreateFile? || r.WritePage? ==> e.space == d.space)
            && (r.CopyTag? ==> e.space.bitmap == d.space.bitmap)
  {
    if r.CopyTag? {
      var at := Locate(d.files, r.file, r.tag);
      if at.Some? {
        var blocks := d.files[at.value.0].tags[at.value.1].blocks;
        CopyKeepsBits(blocks, d.space, |blocks|, r.bad);
      }
    }
    hide Locate, Copy, Resize, UsedResized, CommitBlocks, Discard, FindFile, FindPhysical, Unsigned;
  }

  lemma {:induction false} CopyKeepsBits(blocks: seq<LogicalBlock>, space: Space, n: nat, bad: set<nat>)
    requires n <= |blocks|
    ensures Copy(blocks, space, n, bad).space.bitmap == space.bitmap
  {
    if n > 0 {
      CopyKeepsBits(blocks, space, n - 1, bad);
      hide FindPhysical;
    }
  }

  /** A committed file:tag keeps its meaning through a request if and only if the request is not a DELETE
      of it, or the DELETE uncovers an equal tag. */
  lemma CommittedKept(d: Disk, bs: nat, r: Request, file: string, tag: string)
    requires bs > 0 && TagOf(d.files, file, tag).Some? && TagOf(d.files, file, tag).value.status.Committed?
    ensures TagOf(Serve(d, bs, r).1.files, file, tag) == TagOf(d.files, file, tag) <==>
            (r == DeleteTag(file, tag) ==> Uncovered(d.files, file, tag) == TagOf(d.files, file, tag))
  {
    hide TagOf, Create, Truncate, TagFile, Commit, Delete, Uncovered;
    match r
    case CreateFile(x, y) => CreateVisible(d, x, y, file, tag);
    case TruncateFile(x, y, bytes, bad) => TruncateVisible(d, bs, x, y, bytes, bad, file, tag);
    case CopyTag(x, y, toFile, toTag, bad) => TagFileVisible(d, x, y, toFile, toTag, bad, file, tag);
    case CommitTag(x, y, hashes) => CommitVisible(d, x, y, hashes, file, tag);
    case DeleteTag(x, y) => DeleteVisible(d, x, y, file, tag);
    case WritePage(_, _, _, _, _, _) => WriteVisible(d, bs, r);
  }

  /** A committed file:tag is final until it is deleted: after any run of requests none of which is a
      DELETE of it, it still names the same tag, with the same size and the same blocks on the same
      physical blocks. */
  lemma {:induction false} CommittedUntilDeleted(d: Disk, bs: nat, requests: seq<Request>, file: string, tag: string)
    requires bs > 0 && TagOf(d.files, file, tag).Some? && TagOf(d.files, file, tag).value.status.Committed?
    requires forall k :: 0 <= k < |requests| ==> requests[k] != DeleteTag(file, tag)
    ensures TagOf(After(d, bs, requests).files, file, tag) == TagOf(d.files, file, tag)
    decreases |requests|
  {
    if requests != [] {
      CommittedKept(d, bs, requests[0], file, tag);
      hide TagOf, Serve, Uncovered;
      CommittedUntilDeleted(Serve(d, bs, requests[0]).1, bs, requests[1..], file, tag);
    }
  }

  /** And a DELETE does end it: created, committed and deleted, a file:tag names nothing again. */
  lemma CommittedThenDeleted(d: Disk, file: string, tag: string, hashes: nat -> string)
    requires TagOf(d.files, file, tag).None?
    ensures var c := Commit(Create(d, file, tag).1, file, tag, hashes).1;
            && TagOf(c.files, file, tag).Some? && TagOf(c.files, file, tag).value.status.Committed?
            && TagOf(Delete(c, file, tag).files, file, tag).None?
  {
    var a := Create(d, file, tag).1;
    var c := Commit(a, file, tag, hashes).1;
    CreateVisible(d, file, tag, file, tag);
    CreatedAlone(d, file, tag);
    CommitVisible(a, file, tag, hashes, file, tag);
    CommitUncovers(a, file, tag, hashes);
    DeleteVisible(c, file, tag, file, tag);
    hide *;
  }

  // A created tag hides none.
  lemma CreatedAlone(d: Disk, file: string, tag: string)
    requires TagOf(d.files, file, tag).None?
    ensures Uncovered(Create(d, file, tag).1.files, file, tag).None?
  {
    var files := d.files + [File(file, [])];
    AddFileTagOf(d.files, file, file, tag);
    FirstOfAppended(d.files, File(file, []), IsFile(file));
    var g := FindFile(files, file).value;
    var after := AddTag(files, g, Tag(tag, 0, WorkInProgress, [], []));
    FirstSame(files, after, IsFile(file));
    FirstOfAppended(files[g].tags, Tag(tag, 0, WorkInProgress, [], []), IsTag(tag));
    assert Locate(after, file, tag) == Some((g, |files[g].tags|));
    assert after[g].tags[|files[g].tags| + 1..] == [];
    hide First;
  }

  // Committing a tag leaves what it hides hidden.
  lemma CommitUncovers(d: Disk, file: string, tag: string, hashes: nat -> string)
    ensures Uncovered(Commit(d, file, tag, hashes).1.files, file, tag) == Uncovered(d.files, file, tag)
  {
    hide First, CommitBlocks;
    var at := Locate(d.files, file, tag);
    if at.Some? && !d.files[at.value.0].tags[at.value.1].status.Committed? {
      var (f, t) := at.value;
      var before := d.files[f].tags[t];
      var c := CommitBlocks(Deduped(before.blocks, d.space, d.index), |before.blocks|, hashes);
      var closed := before.(status := Committed, blocks := c.blocks);
      PutTagTagOf(d.files, f, t, closed, file, tag);
      assert PutTag(d.files, f, t, closed)[f].tags[t + 1..] == d.files[f].tags[t + 1..];
    }
  }
}
