/** Shared vocabulary: options, bytes, machine-word widths and counting over sequences. */
module Common {

  datatype Option<+T> = None | Some(value: T)

  newtype Byte = b: int | 0 <= b < 256

  // Number of values of uint32_t and of a 64-bit size_t / uint64_t.
  const U32: nat := 0x1_0000_0000
  const U64: nat := 0x1_0000_0000_0000_0000

  // A slice of what follows the first k elements.
  lemma SliceOfRest<T>(s: seq<T>, k: nat, lo: nat, hi: nat)
    requires lo <= hi && k + hi <= |s|
    ensures s[k..][lo..hi] == s[k + lo..k + hi]
  {
    var a, b := s[k..][lo..hi], s[k + lo..k + hi];
    assert |a| == |b| == hi - lo;
    forall i | 0 <= i < hi - lo ensures a[i] == b[i] {
      assert a[i] == s[k..][lo + i] == s[k + (lo + i)] == b[i];
    }
  }

  // The bytes `data` written over `s` from position `at` on (memcpy).
  function Splice<T>(s: seq<T>, at: nat, data: seq<T>): seq<T>
    requires at + |data| <= |s|
  {
    s[..at] + data + s[at + |data|..]
  }

  lemma SpliceLength<T>(s: seq<T>, at: nat, data: seq<T>)
    requires at + |data| <= |s|
    ensures |Splice(s, at, data)| == |s|
  {
  }

  lemma SpliceAt<T>(s: seq<T>, at: nat, data: seq<T>, k: nat)
    requires at + |data| <= |s| && k < |s|
    ensures |Splice(s, at, data)| == |s|
    ensures Splice(s, at, data)[k] == if at <= k < at + |data| then data[k - at] else s[k]
  {
  }

  // A slice that contains the written bytes, and one that does not meet them.
  lemma SpliceInside<T>(s: seq<T>, at: nat, data: seq<T>, lo: nat, hi: nat)
    requires lo <= at && at + |data| <= hi <= |s|
    ensures Splice(s, at, data)[lo..hi] == Splice(s[lo..hi], at - lo, data)
  {
    var a, b := Splice(s, at, data), Splice(s[lo..hi], at - lo, data);
    assert |a| == |s| && |b| == hi - lo;
    hide Splice;
    forall k | 0 <= k < hi - lo ensures a[lo..hi][k] == b[k] {
      SpliceAt(s, at, data, lo + k);
      SpliceAt(s[lo..hi], at - lo, data, k);
    }
  }

  lemma SpliceOutside<T>(s: seq<T>, at: nat, data: seq<T>, lo: nat, hi: nat)
    requires lo <= hi <= |s| && at + |data| <= |s| && (hi <= at || at + |data| <= lo)
    ensures Splice(s, at, data)[lo..hi] == s[lo..hi]
  {
  }

  // memcpy
  method CopyInto(buffer: array<Byte>, at: nat, data: seq<Byte>)
    requires at + |data| <= buffer.Length
    modifies buffer
    ensures buffer[..] == Splice(old(buffer[..]), at, data)
  {
    forall k | 0 <= k < |data| {
      buffer[at + k] := data[k];
    }
  }

  /** How many elements of `s` satisfy `p`. */
  function Count<T>(s: seq<T>, p: T -> bool): nat
  {
    if s == [] then 0 else Count(s[..|s| - 1], p) + (if p(s[|s| - 1]) then 1 else 0)
  }

  lemma CountAppend<T>(s: seq<T>, x: T, p: T -> bool)
    ensures Count(s + [x], p) == Count(s, p) + (if p(x) then 1 else 0)
  {
    assert (s + [x])[..|s|] == s;
  }

  lemma {:induction false} CountUpdate<T>(s: seq<T>, i: nat, x: T, p: T -> bool)
    requires i < |s|
    ensures Count(s[i := x], p) + (if p(s[i]) then 1 else 0) == Count(s, p) + (if p(x) then 1 else 0)
  {
    var n := |s| - 1;
    if i == n {
      assert s[i := x][..n] == s[..n];
    } else {
      assert s[i := x][..n] == s[..n][i := x];
      CountUpdate(s[..n], i, x, p);
    }
  }

  lemma {:induction false} CountPositive<T>(s: seq<T>, i: nat, p: T -> bool)
    requires i < |s| && p(s[i])
    ensures Count(s, p) >= 1
  {
    if i < |s| - 1 {
      CountPositive(s[..|s| - 1], i, p);
    }
  }

  lemma {:induction false} CountWitness<T>(s: seq<T>, p: T -> bool) returns (i: nat)
    requires Count(s, p) >= 1
    ensures i < |s| && p(s[i])
  {
    if p(s[|s| - 1]) {
      i := |s| - 1;
    } else {
      i := CountWitness(s[..|s| - 1], p);
    }
  }

  lemma {:induction false} CountTwo<T>(s: seq<T>, i: nat, j: nat, p: T -> bool)
    requires i < j < |s| && p(s[i]) && p(s[j])
    ensures Count(s, p) >= 2
  {
    if j == |s| - 1 {
      CountPositive(s[..j], i, p);
    } else {
      CountTwo(s[..|s| - 1], i, j, p);
    }
  }

  // All elements satisfy `p` exactly when the count reaches the length.
  lemma {:induction false} CountFull<T>(s: seq<T>, p: T -> bool)
    ensures Count(s, p) <= |s|
    ensures Count(s, p) == |s| <==> forall i :: 0 <= i < |s| ==> p(s[i])
  {
    if s != [] {
      var n := |s| - 1;
      CountFull(s[..n], p);
      assert forall i :: 0 <= i < n ==> s[..n][i] == s[i];
    }
  }

  /** The first position whose element satisfies `p`: what the C search loops return. */
  function First<T>(s: seq<T>, p: T -> bool): (r: Option<nat>)
    ensures r.Some? ==> r.value < |s| && p(s[r.value])
    ensures r.None? ==> forall i :: 0 <= i < |s| ==> !p(s[i])
  {
    if s == [] then None
    else
      var n := |s| - 1;
      var before := First(s[..n], p);
      if before.Some? then before else if p(s[n]) then Some(n) else None
  }

  lemma {:induction false} FirstIsFirst<T>(s: seq<T>, p: T -> bool)
    ensures forall i :: 0 <= i < |s| && p(s[i]) ==> First(s, p).Some? && First(s, p).value <= i
  {
    if s != [] {
      FirstIsFirst(s[..|s| - 1], p);
      assert forall i :: 0 <= i < |s| - 1 ==> s[..|s| - 1][i] == s[i];
    }
  }

  // A search that stops at n has found what the whole search would find.
  lemma {:induction false} FirstOfPrefix<T>(s: seq<T>, n: nat, p: T -> bool)
    requires n <= |s| && First(s[..n], p).Some?
    ensures First(s, p) == First(s[..n], p)
    decreases |s|
  {
    if n == |s| {
      assert s[..n] == s;
    } else {
      assert s[..|s| - 1][..n] == s[..n];
      FirstOfPrefix(s[..|s| - 1], n, p);
    }
  }
}
