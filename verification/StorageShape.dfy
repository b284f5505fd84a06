/** The shape TRUNCATE gives a tag, and what growing and shrinking do to its blocks. */
module StorageShape {
  import opened Common
  import opened Arithmetic
  import opened BlockNames
  import opened Storage

  function Min(a: int, b: int): (r: int)
    ensures r <= a && r <= b && (r == a || r == b)
  {
    if a <= b then a else b
  }

  // The names of the blocks that n iterations add when those in `bad` fail to link.
  function GoodNames(first: int, n: nat, bad: set<nat>): (r: seq<string>)
    ensures |r| <= n && (bad == {} ==> |r| == n)
  {
    if n == 0 then []
    else GoodNames(first, n - 1, bad) + if n - 1 in bad then [] else [LogicalName(first + n - 1)]
  }

  // From position `from` on the blocks carry these names, in order.
  ghost predicate NamedFrom(blocks: seq<LogicalBlock>, from: nat, names: seq<string>) {
    |blocks| <= from + |names| && forall j :: from <= j < |blocks| ==> blocks[j].name == names[j - from]
  }

  lemma NextBlock(w: Work, number: int, k: nat, from: nat, names: seq<string>)
    requires from <= |w.blocks| == from + |names| && NamedFrom(w.blocks, from, names)
    requires LeastFree(w.space.bitmap) == Some(k)
    ensures var x := Extended(w, number, k);
            && NamedFrom(x.blocks, from, names + [LogicalName(number)])
            && |x.blocks| == |w.blocks| + 1 && x.blocks[..|w.blocks|] == w.blocks
            && Count(w.space.bitmap, Free()) >= 1 && Count(x.space.bitmap, Free()) == Count(w.space.bitmap, Free()) - 1
  {
    CountUpdate(w.space.bitmap, k, true, Free());
    CountPositive(w.space.bitmap, k, Free());
    hide LogicalName, LeastFree, Count;
  }

  lemma Prefix(a: seq<LogicalBlock>, b: seq<LogicalBlock>, c: seq<LogicalBlock>)
    requires |a| <= |b| <= |c| && b[..|a|] == a && c[..|b|] == b
    ensures c[..|a|] == a
  {
  }

  lemma {:induction false} NoneFree(bitmap: seq<bool>)
    requires forall i :: 0 <= i < |bitmap| ==> bitmap[i]
    ensures Count(bitmap, Free()) == 0
  {
    if bitmap != [] {
      NoneFree(bitmap[..|bitmap| - 1]);
    }
  }

  // What is known of a grow after n iterations, `free` bits being free at its start.
  ghost predicate Grown(blocks: seq<LogicalBlock>, w: Work, first: int, n: nat, bad: set<nat>, free: nat) {
    var added := |w.blocks| - |blocks|;
    && 0 <= added && w.blocks[..|blocks|] == blocks
    && added == free - Count(w.space.bitmap, Free())
    && (w.full <==> n > 0 && |GoodNames(first, n - 1, bad)| >= free)
    && added == (if w.full then free else |GoodNames(first, n, bad)|)
    && NamedFrom(w.blocks, |blocks|, GoodNames(first, n, bad))
  }

  // An iteration that links a block, and one that does not.
  lemma GrownLinked(blocks: seq<LogicalBlock>, w: Work, first: int, n: nat, bad: set<nat>, free: nat, k: nat)
    requires n > 0 && Grown(blocks, w, first, n - 1, bad, free) && !w.full
    requires LeastFree(w.space.bitmap) == Some(k) && n - 1 !in bad
    ensures Grown(blocks, Extended(w, first + n - 1, k), first, n, bad, free)
  {
    var names := GoodNames(first, n - 1, bad);
    assert n > 1 ==> |names| >= |GoodNames(first, n - 2, bad)|;
    NextBlock(w, first + n - 1, k, |blocks|, names);
    Prefix(blocks, w.blocks, Extended(w, first + n - 1, k).blocks);
    assert !Extended(w, first + n - 1, k).full;
    hide LeastFree, Extended, Count, LogicalName;
  }

  lemma GrownUnlinked(blocks: seq<LogicalBlock>, w: Work, x: Work, first: int, n: nat, bad: set<nat>, free: nat)
    requires n > 0 && Grown(blocks, w, first, n - 1, bad, free) && x == GrowStep(w, first + n - 1, n - 1 !in bad)
    requires w.full || LeastFree(w.space.bitmap).None? || n - 1 in bad
    ensures Grown(blocks, x, first, n, bad, free)
  {
    var k := LeastFree(w.space.bitmap);
    assert n > 1 ==> |GoodNames(first, n - 1, bad)| >= |GoodNames(first, n - 2, bad)|;
    if !w.full && k.None? {
      NoneFree(w.space.bitmap);
    } else if !w.full {
      CountPositive(w.space.bitmap, k.value, Free());
    }
    hide LeastFree, Extended, Count, LogicalName;
  }

  lemma GrownStep(blocks: seq<LogicalBlock>, w: Work, x: Work, first: int, n: nat, bad: set<nat>, free: nat)
    requires n > 0 && Grown(blocks, w, first, n - 1, bad, free)
    requires x == GrowStep(w, first + n - 1, n - 1 !in bad)
    ensures Grown(blocks, x, first, n, bad, free)
  {
    hide Grown, LeastFree, Extended;
    var k := LeastFree(w.space.bitmap);
    if !w.full && k.Some? && n - 1 !in bad {
      GrownLinked(blocks, w, first, n, bad, free, k.value);
    } else {
      GrownUnlinked(blocks, w, x, first, n, bad, free);
    }
  }

  /** Growing by n adds one block for each link that succeeds, under consecutive numbers that skip the
      failed ones, and leaves the blocks there were; it stops as full exactly when the free bits are
      used up before the last iteration, and then has added one block for each of them. */
  lemma {:induction false} GrowExact(blocks: seq<LogicalBlock>, space: Space, first: int, n: nat, bad: set<nat>)
    ensures Grown(blocks, Grow(blocks, space, first, n, bad), first, n, bad, Count(space.bitmap, Free()))
  {
    if n > 0 {
      assert Grow(blocks, space, first, n, bad) == GrowStep(Grow(blocks, space, first, n - 1, bad), first + n - 1, n - 1 !in bad) by {
        hide GrowStep;
      }
      hide *;
      GrowExact(blocks, space, first, n - 1, bad);
      GrownStep(blocks, Grow(blocks, space, first, n - 1, bad), Grow(blocks, space, first, n, bad), first, n, bad,
                Count(space.bitmap, Free()));
    }
  }

  /** Shrinking by n removes exactly the last n blocks. */
  lemma {:induction false} ShrinkExact(blocks: seq<LogicalBlock>, space: Space, n: nat)
    ensures Shrink(blocks, space, n).blocks == blocks[..|blocks| - Min(n, |blocks|)]
    ensures !Shrink(blocks, space, n).full
  {
    if n > 0 {
      ShrinkExact(blocks, space, n - 1);
      hide Drop;
    }
  }

  ghost predicate Numbered(blocks: seq<LogicalBlock>) {
    forall i :: 0 <= i < |blocks| ==> blocks[i].name == LogicalName(i)
  }

  /** A tag has one block for each BLOCK_SIZE bytes, named 000000.dat, 000001.dat, ... */
  ghost predicate Shaped(tag: Tag, bs: nat)
    requires bs > 0
  {
    |tag.blocks| == BlockCount(tag.size, bs) && Numbered(tag.blocks)
  }

  /** A non-negative size stands for its quotient. */
  lemma CountOf(bytes: int, bs: nat)
    requires bs > 0 && 0 <= bytes < U32 / 2
    ensures BlockCount(bytes, bs) == bytes / bs
  {
    QuotientIs(bytes, U32, 0, bytes);
    assert Unsigned(bytes) == bytes;
    MulMonotone(1, bs, U32 / 2);
    QuotientBound(bytes, bs, U32 / 2);
    assert bytes / bs >= 0 by { DivMod(bytes, bs); }
    hide Unsigned;
  }

  /** With a BLOCK_SIZE above 1 no size stands for a negative count. */
  lemma NegativeCount(bytes: int, bs: nat)
    requires bs > 1
    ensures BlockCount(bytes, bs) >= 0
  {
    MulMonotone(2, bs, U32 / 2);
    QuotientBound(Unsigned(bytes), bs, U32 / 2);
  }

  lemma {:induction false} AllGood(first: int, n: nat)
    ensures |GoodNames(first, n, {})| == n && forall i :: 0 <= i < n ==> GoodNames(first, n, {})[i] == LogicalName(first + i)
  {
    if n > 0 {
      AllGood(first, n - 1);
      hide LogicalName;
    }
  }

  // From `before` to w.blocks: n blocks (none for negative n), or as many as the free bits allow.
  ghost predicate Resized(before: seq<LogicalBlock>, w: Work, n: int, free: nat) {
    && (w.full <==> n - |before| > free)
    && |w.blocks| == (if w.full then |before| + free else if n < 0 then 0 else n)
    && (var kept := Min(|before|, |w.blocks|); w.blocks[..kept] == before[..kept])
  }

  lemma GrowResizes(blocks: seq<LogicalBlock>, space: Space, n: nat)
    requires Numbered(blocks) && n > |blocks|
    ensures var w := Grow(blocks, space, |blocks|, n - |blocks|, {});
            Resized(blocks, w, n, Count(space.bitmap, Free())) && Numbered(w.blocks)
  {
    hide Grow, Count, LogicalName, GoodNames, Free, Numbered, NamedFrom;
    var m := n - |blocks|;
    GrowExact(blocks, space, |blocks|, m, {});
    AllGood(|blocks|, m);
    GrownNumbered(blocks, Grow(blocks, space, |blocks|, m, {}).blocks, GoodNames(|blocks|, m, {}));
  }

  lemma GrownNumbered(blocks: seq<LogicalBlock>, after: seq<LogicalBlock>, names: seq<string>)
    requires Numbered(blocks) && |after| >= |blocks| && after[..|blocks|] == blocks && NamedFrom(after, |blocks|, names)
    requires forall i :: 0 <= i < |names| ==> names[i] == LogicalName(|blocks| + i)
    ensures Numbered(after)
  {
    hide LogicalName;
    forall i | 0 <= i < |after| ensures after[i].name == LogicalName(i) {
      if i < |blocks| {
        assert after[..|blocks|][i] == blocks[i];
      } else {
        assert names[i - |blocks|] == LogicalName(i);
      }
    }
  }

  lemma ShrinkResizes(blocks: seq<LogicalBlock>, space: Space, n: int)
    requires Numbered(blocks) && n <= |blocks|
    ensures var w := Shrink(blocks, space, |blocks| - n);
            Resized(blocks, w, n, Count(space.bitmap, Free())) && Numbered(w.blocks)
  {
    hide Shrink, Count, LogicalName, Numbered, Free;
    ShrinkExact(blocks, space, |blocks| - n);
    PrefixNumbered(blocks, |Shrink(blocks, space, |blocks| - n).blocks|);
  }

  lemma PrefixNumbered(blocks: seq<LogicalBlock>, k: nat)
    requires Numbered(blocks) && k <= |blocks|
    ensures Numbered(blocks[..k])
  {
    hide LogicalName;
  }

  lemma ResizeExact(tag: Tag, space: Space, bytes: int, bs: nat)
    requires bs > 0 && Shaped(tag, bs)
    ensures var w := Resize(tag, space, bytes, bs, {});
            Resized(tag.blocks, w, BlockCount(bytes, bs), Count(space.bitmap, Free())) && Numbered(w.blocks)
  {
    hide Grow, Shrink, Count, BlockCount, Numbered, Resized;
    var n := BlockCount(bytes, bs);
    if n > |tag.blocks| {
      GrowResizes(tag.blocks, space, n);
    } else {
      ShrinkResizes(tag.blocks, space, n);
    }
  }

  /** TRUNCATE of a well-shaped open tag to a size standing for n blocks, links succeeding: it returns 0
      if and only if the free bits cover the growth, and then the tag has the new size and exactly n
      blocks, of which the first min(old, n) are unchanged, and is well shaped again; only a negative n,
      which takes a BLOCK_SIZE of 1, leaves it with no block and so ill shaped. If
      they do not, it returns -1 after taking every free block and keeps the old size, so the tag stays
      well shaped only if there was none. */
  lemma TruncateShape(d: Disk, bs: nat, file: string, tag: string, bytes: int)
    requires bs > 0 && Unsigned(bytes) % bs == 0
    requires var at := Locate(d.files, file, tag);
             at.Some? &&
             var before := d.files[at.value.0].tags[at.value.1];
             before.status.WorkInProgress? && Shaped(before, bs)
    ensures var at := Locate(d.files, file, tag).value;
            var before := d.files[at.0].tags[at.1];
            var (rc, r) := Truncate(d, bs, file, tag, bytes, {});
            var n := BlockCount(bytes, bs);
            var free := Count(d.space.bitmap, Free());
            && |r.files| == |d.files| && |r.files[at.0].tags| == |d.files[at.0].tags|
            && rc == (if n - |before.blocks| <= free then 0 else -1) && (n < 0 ==> bs == 1)
            && var after := r.files[at.0].tags[at.1];
               var kept := Min(|before.blocks|, |after.blocks|);
               && after.blocks[..kept] == before.blocks[..kept]
               && (rc == 0 ==> |after.blocks| == (if n < 0 then 0 else n) && after.size == bytes && (Shaped(after, bs) <==> n >= 0))
               && (rc == -1 ==> |after.blocks| == |before.blocks| + free && after.size == before.size && (Shaped(after, bs) <==> free == 0))
  {
    var at := Locate(d.files, file, tag).value;
    var before := d.files[at.0].tags[at.1];
    ResizeExact(before, d.space, bytes, bs);
    if bs > 1 {
      NegativeCount(bytes, bs);
    }
    hide Resize, UsedResized, Locate, Count, Numbered, BlockCount, Unsigned;
  }

  /** No two blocks of a well-shaped tag have the same name. */
  lemma ShapedNamesDiffer(tag: Tag, bs: nat, i: nat, j: nat)
    requires bs > 0 && Shaped(tag, bs) && i < j < |tag.blocks|
    ensures tag.blocks[i].name != tag.blocks[j].name
  {
    if LogicalName(i) == LogicalName(j) {
      LogicalNamesDiffer(i, j);
    }
  }
}
