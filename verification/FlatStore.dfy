/** Byte positions inside a file:tag and the flat store they index, with the C integer widths:
    the byte position is a size_t, the page number is cast to uint32_t. */
module FlatStore {
  import opened Common
  import opened PageCache
  import opened Arithmetic

  /** Where one byte of a request is looked for: page quotient and offset in the page. */
  datatype Cursor = Cursor(page: nat, off: nat)

  function Start(ps: nat, x: nat): (c: Cursor)
    requires ps > 0
    ensures c.off < ps
  {
    Cursor(x / ps, x % ps)
  }

  /** Byte k of a request from `base`: pointer steps inside a page, a fresh size_t sum at each page end. */
  function Locate(ps: nat, base: nat, k: nat): (c: Cursor)
    requires ps > 0
    ensures c.off < ps
  {
    if k == 0 then Start(ps, base)
    else
      var c := Locate(ps, base, k - 1);
      if c.off + 1 == ps then Start(ps, (base + k) % U64) else Cursor(c.page, c.off + 1)
  }

  // The page of a cursor, after the cast to uint32_t.
  function PageOf(ft: FileTag, c: Cursor): PageId {
    PageId(ft, c.page % U32)
  }

  ghost predicate Sized(flat: Pages, ps: nat) {
    forall p :: p in flat ==> |flat[p]| == ps
  }

  function ByteAt(flat: Pages, ps: nat, ft: FileTag, base: nat, k: nat): Byte
    requires ps > 0 && Sized(flat, ps) && PageOf(ft, Locate(ps, base, k)) in flat
  {
    var c := Locate(ps, base, k);
    flat[PageOf(ft, c)][c.off]
  }

  // One byte stored at a cursor, if its page exists.
  function PutByte(flat: Pages, ps: nat, ft: FileTag, c: Cursor, b: Byte): (r: Pages)
    requires Sized(flat, ps) && c.off < ps
    ensures r.Keys == flat.Keys && Sized(r, ps)
  {
    var p := PageOf(ft, c);
    if p in flat then flat[p := flat[p][c.off := b]] else flat
  }

  /** The flat store after the first n of the bytes `data` were written one by one from `base` on. */
  function WriteFlat(flat: Pages, ps: nat, ft: FileTag, base: nat, data: seq<Byte>, n: nat): (r: Pages)
    requires ps > 0 && Sized(flat, ps) && n <= |data|
    ensures r.Keys == flat.Keys && Sized(r, ps)
  {
    if n == 0 then flat
    else PutByte(WriteFlat(flat, ps, ft, base, data, n - 1), ps, ft, Locate(ps, base, n - 1), data[n - 1])
  }

  lemma PutByteAt(flat: Pages, ps: nat, ft: FileTag, c: Cursor, b: Byte, p: PageId, o: nat)
    requires Sized(flat, ps) && c.off < ps && p in flat && o < ps
    ensures PutByte(flat, ps, ft, c, b)[p][o] == if p == PageOf(ft, c) && o == c.off then b else flat[p][o]
  {
  }

  // ---------- inside one page ----------

  /** Up to the end of its page a request moves byte by byte through that page. */
  lemma {:induction false} LocateWithinPage(ps: nat, base: nat, d: nat, n: nat)
    requires ps > 0 && d <= n && Locate(ps, base, d).off + (n - d) < ps
    ensures Locate(ps, base, n) == Cursor(Locate(ps, base, d).page, Locate(ps, base, d).off + (n - d))
  {
    if d < n {
      LocateWithinPage(ps, base, d, n - 1);
    }
  }

  // The next turn of the access loop is at byte k.
  predicate AtTurn(ps: nat, base: nat, k: nat)
    requires ps > 0
  {
    StartsTurn(ps, base, k) && Locate(ps, base, k) == Start(ps, (base + k) % U64)
  }

  lemma LocateNextPage(ps: nat, base: nat, d: nat, n: nat)
    requires ps > 0 && d < n && Locate(ps, base, d).off + (n - d) == ps
    ensures AtTurn(ps, base, n)
  {
    LocateWithinPage(ps, base, d, n - 1);
  }

  // Bytes spliced into one page of the flat store.
  function SpliceIn(flat: Pages, p: PageId, off: nat, bytes: seq<Byte>): Pages {
    if p in flat && off + |bytes| <= |flat[p]| then flat[p := Splice(flat[p], off, bytes)] else flat
  }

  // Byte o of page p after bytes d to e went in at offset off.
  function Patched(page: Page, o: nat, off: nat, data: seq<Byte>, d: nat, e: nat): Byte
    requires o < |page| && d <= e <= |data|
  {
    if off <= o < off + (e - d) then data[d + (o - off)] else page[o]
  }

  lemma WriteUnfolds(flat: Pages, ps: nat, ft: FileTag, base: nat, data: seq<Byte>, n: nat)
    requires ps > 0 && Sized(flat, ps) && n < |data|
    ensures WriteFlat(flat, ps, ft, base, data, n + 1) ==
            PutByte(WriteFlat(flat, ps, ft, base, data, n), ps, ft, Locate(ps, base, n), data[n])
  {
    hide Sized, PutByte, Locate;
  }

  // One byte more of a chunk; `page` is page q before the chunk and v the store after n bytes.
  lemma ChunkByte(v: Pages, ps: nat, ft: FileTag, c: Cursor, data: seq<Byte>, d: nat, n: nat, page: Page, q: PageId, o: nat)
    requires Sized(v, ps) && q in v && o < ps == |page| && d <= n < |data| && c.off + (n - d) < ps
    requires v[q][o] == if q == PageOf(ft, c) then Patched(page, o, c.off, data, d, n) else page[o]
    ensures PutByte(v, ps, ft, Cursor(c.page, c.off + (n - d)), data[n])[q][o] ==
            if q == PageOf(ft, c) then Patched(page, o, c.off, data, d, n + 1) else page[o]
  {
    PutByteAt(v, ps, ft, Cursor(c.page, c.off + (n - d)), data[n], q, o);
    hide PutByte, Sized;
  }

  // A chunk that stays inside a page, byte by byte; c is the cursor of its first byte.
  lemma {:induction false} ChunkBytes(flat: Pages, ps: nat, ft: FileTag, base: nat, data: seq<Byte>, d: nat, e: nat,
                                      c: Cursor, w: Pages, q: PageId, o: nat)
    requires ps > 0 && Sized(flat, ps) && d <= e <= |data| && q in flat && o < ps
    requires c == Locate(ps, base, d) && c.off + (e - d) <= ps
    requires w == WriteFlat(flat, ps, ft, base, data, d)
    ensures WriteFlat(flat, ps, ft, base, data, e)[q][o] ==
            if q == PageOf(ft, c) then Patched(w[q], o, c.off, data, d, e) else w[q][o]
    decreases e
  {
    hide *;
    SizedPage(w, ps, q);
    if d < e {
      var n := e - 1;
      ChunkBytes(flat, ps, ft, base, data, d, n, c, w, q, o);
      LocateWithinPage(ps, base, d, n);
      WriteUnfolds(flat, ps, ft, base, data, n);
      ChunkByte(WriteFlat(flat, ps, ft, base, data, n), ps, ft, c, data, d, n, w[q], q, o);
    } else {
      NoneOfChunk(w[q], o, c.off, data, d);
    }
  }

  lemma NoneOfChunk(page: Page, o: nat, off: nat, data: seq<Byte>, d: nat)
    requires o < |page| && d <= |data|
    ensures Patched(page, o, off, data, d, d) == page[o]
  {
  }

  lemma SizedPage(flat: Pages, ps: nat, q: PageId)
    requires Sized(flat, ps) && q in flat
    ensures |flat[q]| == ps
  {
  }

  /** Writing one chunk, bytes d to e of the request, that stays inside a page is one splice of it. */
  lemma ChunkWrite(flat: Pages, ps: nat, ft: FileTag, base: nat, data: seq<Byte>, d: nat, e: nat)
    requires ps > 0 && Sized(flat, ps) && d <= e <= |data|
    requires Locate(ps, base, d).off + (e - d) <= ps && PageOf(ft, Locate(ps, base, d)) in flat
    ensures WriteFlat(flat, ps, ft, base, data, e)
         == SpliceIn(WriteFlat(flat, ps, ft, base, data, d), PageOf(ft, Locate(ps, base, d)), Locate(ps, base, d).off, data[d..e])
  {
    var c := Locate(ps, base, d);
    var w, v := WriteFlat(flat, ps, ft, base, data, d), WriteFlat(flat, ps, ft, base, data, e);
    forall q, o | q in flat && 0 <= o < ps
      ensures v[q][o] == if q == PageOf(ft, c) then Patched(w[q], o, c.off, data, d, e) else w[q][o]
    {
      ChunkBytes(flat, ps, ft, base, data, d, e, c, w, q, o);
    }
    PatchIsSplice(w, v, ps, PageOf(ft, c), c.off, data, d, e);
  }

  lemma PatchIsSplice(w: Pages, v: Pages, ps: nat, p: PageId, off: nat, data: seq<Byte>, d: nat, e: nat)
    requires Sized(w, ps) && Sized(v, ps) && v.Keys == w.Keys && p in w && d <= e <= |data| && off + (e - d) <= ps
    requires forall q, o :: q in w && 0 <= o < ps ==>
               v[q][o] == if q == p then Patched(w[q], o, off, data, d, e) else w[q][o]
    ensures v == SpliceIn(w, p, off, data[d..e])
  {
    var s := SpliceIn(w, p, off, data[d..e]);
    forall q | q in w ensures v[q] == s[q] {
      assert |v[q]| == |s[q]| == ps;
      assert forall o :: 0 <= o < ps ==> v[q][o] == s[q][o];
    }
  }

  /** Every byte of the request lies in a page that exists. */
  ghost predicate Mapped(flat: Pages, ps: nat, ft: FileTag, base: nat, n: nat)
    requires ps > 0
  {
    forall k :: 0 <= k < n ==> PageOf(ft, Locate(ps, base, k)) in flat
  }

  lemma ChunkMapped(flat: Pages, ps: nat, ft: FileTag, base: nat, d: nat, e: nat)
    requires ps > 0 && d <= e && Mapped(flat, ps, ft, base, d)
    requires Locate(ps, base, d).off + (e - d) <= ps && PageOf(ft, Locate(ps, base, d)) in flat
    ensures Mapped(flat, ps, ft, base, e)
  {
    forall k | d <= k < e ensures PageOf(ft, Locate(ps, base, k)) in flat {
      LocateWithinPage(ps, base, d, k);
    }
  }

  // ---------- the pages a request touches ----------

  // Byte k is the first of a turn of the access loop: the first byte, or the one after a page end.
  predicate StartsTurn(ps: nat, base: nat, k: nat)
    requires ps > 0
  {
    k == 0 || Locate(ps, base, k - 1).off + 1 == ps
  }

  /** The pages touched by the first n bytes of a request, one for each turn, in order. */
  function Turns(ps: nat, ft: FileTag, base: nat, n: nat): seq<PageId>
    requires ps > 0
  {
    if n == 0 then []
    else Turns(ps, ft, base, n - 1) + if StartsTurn(ps, base, n - 1) then [PageOf(ft, Locate(ps, base, n - 1))] else []
  }

  /** A chunk that starts a turn and stays inside its page touches that page, once. */
  lemma {:induction false} ChunkTurn(ps: nat, ft: FileTag, base: nat, d: nat, e: nat)
    requires ps > 0 && d < e && StartsTurn(ps, base, d) && Locate(ps, base, d).off + (e - d) <= ps
    ensures Turns(ps, ft, base, e) == Turns(ps, ft, base, d) + [PageOf(ft, Locate(ps, base, d))]
    decreases e
  {
    if d + 1 < e {
      ChunkTurn(ps, ft, base, d, e - 1);
      LocateWithinPage(ps, base, d, e - 2);
      assert !StartsTurn(ps, base, e - 1);
    }
  }

  // In range byte k + 1 starts a turn exactly when its page is the next one.
  lemma TurnInRange(ps: nat, base: nat, k: nat)
    requires 0 < ps < 0x8000_0000 && base + k + 1 < ps * U32
    ensures (base + k + 1) / ps == (base + k) / ps + if StartsTurn(ps, base, k + 1) then 1 else 0
  {
    LocateInRange(ps, base, k);
    NextQuotient(base + k, ps);
    hide Locate;
  }

  lemma PageInRange(ps: nat, ft: FileTag, base: nat, k: nat)
    requires 0 < ps < 0x8000_0000 && base + k < ps * U32
    ensures PageOf(ft, Locate(ps, base, k)) == PageId(ft, (base + k) / ps)
  {
    LocateInRange(ps, base, k);
    SmallModulo((base + k) / ps, U32);
    hide Locate;
  }

  /** In range, a request touches the pages from that of its first byte to that of its last, in order. */
  lemma {:induction false} TurnsInRange(ps: nat, ft: FileTag, base: nat, n: nat)
    requires 0 < ps < 0x8000_0000 && InRange(ps, base, n)
    ensures |Turns(ps, ft, base, n)| == if n == 0 then 0 else (base + n - 1) / ps - base / ps + 1
    ensures forall i :: 0 <= i < |Turns(ps, ft, base, n)| ==> Turns(ps, ft, base, n)[i] == PageId(ft, base / ps + i)
  {
    hide Locate, PageOf;
    if n > 0 {
      PageInRange(ps, ft, base, n - 1);
      if n > 1 {
        TurnsInRange(ps, ft, base, n - 1);
        TurnInRange(ps, base, n - 2);
      }
    }
  }

  lemma NothingAccessed(flat: Pages, ps: nat, ft: FileTag, base: nat, data: seq<Byte>, out: seq<Byte>)
    requires ps > 0 && Sized(flat, ps) && base < U64
    ensures AtTurn(ps, base, 0) && Turns(ps, ft, base, 0) == []
    ensures WriteFlat(flat, ps, ft, base, data, 0) == flat && ReadFlat(flat, ps, ft, base, out, 0) && Mapped(flat, ps, ft, base, 0)
  {
    SmallModulo(base, U64);
  }

  /** The first n bytes of `out` are those of the flat store from `base` on. */
  ghost predicate ReadFlat(flat: Pages, ps: nat, ft: FileTag, base: nat, out: seq<Byte>, n: nat)
    requires ps > 0 && Sized(flat, ps) && n <= |out|
  {
    forall k :: 0 <= k < n ==> PageOf(ft, Locate(ps, base, k)) in flat && out[k] == ByteAt(flat, ps, ft, base, k)
  }

  /** Reading one chunk that stays inside a page extends what has been read. */
  lemma ChunkRead(flat: Pages, ps: nat, ft: FileTag, base: nat, before: seq<Byte>, d: nat, e: nat)
    requires ps > 0 && Sized(flat, ps) && d <= e <= |before| && ReadFlat(flat, ps, ft, base, before, d)
    requires Locate(ps, base, d).off + (e - d) <= ps && PageOf(ft, Locate(ps, base, d)) in flat
    ensures var c := Locate(ps, base, d);
            ReadFlat(flat, ps, ft, base, Splice(before, d, flat[PageOf(ft, c)][c.off..c.off + (e - d)]), e)
  {
    var c := Locate(ps, base, d);
    var page := flat[PageOf(ft, c)];
    assert |page| == ps;
    var part := page[c.off..c.off + (e - d)];
    var out := Splice(before, d, part);
    hide Splice, Locate, PageOf, Sized;
    SpliceLength(before, d, part);
    forall k | 0 <= k < e ensures PageOf(ft, Locate(ps, base, k)) in flat && out[k] == ByteAt(flat, ps, ft, base, k) {
      SpliceAt(before, d, part, k);
      if k >= d {
        LocateWithinPage(ps, base, d, k);
        SameCursorPage(ft, c, k - d);
      }
    }
  }

  // Moving inside a page does not change the page.
  lemma SameCursorPage(ft: FileTag, c: Cursor, k: nat)
    ensures PageOf(ft, Cursor(c.page, c.off + k)) == PageOf(ft, c)
  {
  }

  // ---------- the flat address space ----------

  // No byte of the request falls past page 2^32 - 1.
  predicate InRange(ps: nat, base: nat, n: nat) {
    n == 0 || base + n <= ps * U32
  }

  /** In range, byte k is looked for at position base + k. */
  lemma {:induction false} LocateInRange(ps: nat, base: nat, k: nat)
    requires 0 < ps < 0x8000_0000 && base + k < ps * U32
    ensures Locate(ps, base, k) == Start(ps, base + k) && Start(ps, base + k).page < U32
  {
    QuotientBound(base + k, ps, U32);
    if k > 0 {
      LocateInRange(ps, base, k - 1);
      SmallModulo(base + k, U64);
      var x := base + k - 1;
      if x % ps + 1 < ps { SameQuotient(x, ps, 1); }
    }
  }

  lemma SmallModulo(x: nat, n: nat)
    requires x < n
    ensures x % n == x
  {
  }

  /** Position of a byte named by page and offset. */
  function Position(ps: nat, number: nat, off: nat): nat { number * ps + off }

  ghost predicate Faithful(ps: nat, ft: FileTag, base: nat, k: nat)
    requires ps > 0
  {
    var c := Locate(ps, base, k);
    Position(ps, PageOf(ft, c).number, c.off) == base + k
  }

  /** The exact condition under which a request addresses the bytes it names: every byte k is looked
      for at flat position base + k iff the request ends at or before byte 2^32 * PAGE_SIZE. */
  lemma FaithfulIffInRange(ps: nat, ft: FileTag, base: nat, n: nat)
    requires 0 < ps < 0x8000_0000
    ensures InRange(ps, base, n) <==> forall k :: 0 <= k < n ==> Faithful(ps, ft, base, k)
  {
    if InRange(ps, base, n) {
      forall k | 0 <= k < n ensures Faithful(ps, ft, base, k) {
        LocateInRange(ps, base, k);
        DivMod(base + k, ps);
      }
    } else {
      BeyondRange(ps, ft, base, n - 1);
    }
  }

  lemma BeyondRange(ps: nat, ft: FileTag, base: nat, k: nat)
    requires ps > 0 && base + k >= ps * U32
    ensures !Faithful(ps, ft, base, k)
  {
    MulMonotone(PageOf(ft, Locate(ps, base, k)).number, U32 - 1, ps);
  }

  /** Past that limit pages alias: byte 2^32 * PAGE_SIZE of a file is byte 0 of the same file. */
  lemma PageNumberAliases(ps: nat, ft: FileTag)
    requires 0 < ps < 0x8000_0000
    ensures PageOf(ft, Locate(ps, ps * U32, 0)) == PageOf(ft, Locate(ps, 0, 0)) == PageId(ft, 0)
    ensures Locate(ps, ps * U32, 0).off == Locate(ps, 0, 0).off == 0
    ensures !InRange(ps, ps * U32, 1)
  {
    QuotientIs(ps * U32, ps, U32, 0);
    QuotientIs(0, ps, 0, 0);
  }

  // Byte o of page p is position x exactly when it is where x is looked for.
  lemma SamePosition(ps: nat, ft: FileTag, x: nat, p: PageId, o: nat)
    requires 0 < ps && o < ps && p.ft == ft && Start(ps, x).page < U32
    ensures Position(ps, p.number, o) == x <==> p == PageOf(ft, Start(ps, x)) && o == Start(ps, x).off
  {
    DivMod(x, ps);
    if Position(ps, p.number, o) == x {
      SplitUnique(ps, p.number, o, x / ps, x % ps);
    }
  }

  // In range, byte k of the request is stored at byte o of page p iff that is its position.
  lemma HereIffPosition(ps: nat, ft: FileTag, base: nat, k: nat, p: PageId, o: nat, pos: nat)
    requires 0 < ps < 0x8000_0000 && base + k < ps * U32 && o < ps && pos == Position(ps, p.number, o)
    ensures p == PageOf(ft, Locate(ps, base, k)) && o == Locate(ps, base, k).off <==> p.ft == ft && pos == base + k
  {
    LocateInRange(ps, base, k);
    if p.ft == ft { SamePosition(ps, ft, base + k, p, o); }
  }

  /** A write in range changes exactly the bytes [base, base + n) of its file:tag, nothing else. */
  lemma {:induction false} WriteFlatExact(flat: Pages, ps: nat, ft: FileTag, base: nat, data: seq<Byte>, n: nat,
                                          p: PageId, o: nat, pos: nat)
    requires 0 < ps < 0x8000_0000 && Sized(flat, ps) && n <= |data| && InRange(ps, base, n)
    requires p in flat && o < ps && pos == Position(ps, p.number, o)
    ensures WriteFlat(flat, ps, ft, base, data, n)[p][o] ==
            if p.ft == ft && base <= pos < base + n then data[pos - base] else flat[p][o]
  {
    if n > 0 {
      WriteFlatExact(flat, ps, ft, base, data, n - 1, p, o, pos);
      var w, c := WriteFlat(flat, ps, ft, base, data, n - 1), Locate(ps, base, n - 1);
      HereIffPosition(ps, ft, base, n - 1, p, o, pos);
      hide Locate, PageOf, Position;
      PutByteAt(w, ps, ft, c, data[n - 1], p, o);
    }
  }

  /** What was written is what a later read of the same range returns. */
  lemma ReadAfterWrite(flat: Pages, ps: nat, ft: FileTag, base: nat, data: seq<Byte>, k: nat)
    requires 0 < ps < 0x8000_0000 && Sized(flat, ps) && InRange(ps, base, |data|) && k < |data|
    requires PageOf(ft, Locate(ps, base, k)) in flat
    ensures ByteAt(WriteFlat(flat, ps, ft, base, data, |data|), ps, ft, base, k) == data[k]
  {
    LocateInRange(ps, base, k);
    var c := Start(ps, base + k);
    SamePosition(ps, ft, base + k, PageOf(ft, c), c.off);
    WriteFlatExact(flat, ps, ft, base, data, |data|, PageOf(ft, c), c.off, base + k);
  }
}
