/**
 * The kernel heap (kernel/src/sys/heap.c).
 *
 * The heap is a run of chunks in address order, each a 16-byte header
 * (`memory_chunk_t`) followed by its payload; the first starts at the
 * heap's virtual address and each next one starts where the previous one
 * ends.  The intrusive `next`/`prev` links therefore carry no information
 * beyond the order, and the chunks are modelled as a sequence of
 * `size` and `allocated` (`used` here) headers.  The payload bytes are an array `data`
 * holding the heap's bytes, indexed by offset from the heap's start.
 */
module Heap {
  import opened Kernel
  import Paging
  import Strings

  /** sizeof(memory_chunk_t) on i686: two pointers, a uint32_t and a bool, padded to 16. */
  const H: nat := 16

  datatype Chunk = Chunk(size: u32, used: bool)

  // ------------------------------------------------------- chunk geometry

  /** The offset of chunk `k`'s header from the start of the heap: the headers and payloads before it. */
  function Offset(cs: seq<Chunk>, k: nat): nat
    requires k <= |cs|
    decreases k
  {
    if k == 0 then 0 else Offset(cs, k - 1) + H + cs[k - 1].size as nat
  }

  /** The bytes a run of chunks occupies: every header and every payload. */
  function Total(cs: seq<Chunk>): nat {
    Offset(cs, |cs|)
  }

  /** Each chunk starts where the previous one ends. */
  lemma {:induction false} OffsetStep(cs: seq<Chunk>, k: nat)
    requires k < |cs|
    ensures Offset(cs, k + 1) == Offset(cs, k) + H + cs[k].size as nat
  {
  }

  /** Two chunk lists that agree up to `k` place their first `k` chunks alike. */
  lemma {:induction false} SamePrefix(cs: seq<Chunk>, cs': seq<Chunk>, k: nat, i: nat)
    requires i <= k <= |cs| && k <= |cs'| && cs[..k] == cs'[..k]
    ensures Offset(cs, i) == Offset(cs', i)
    decreases i
  {
    if i > 0 {
      SamePrefix(cs, cs', k, i - 1);
      assert cs[i - 1] == cs[..k][i - 1] == cs'[..k][i - 1] == cs'[i - 1];
    }
  }

  /** Past a leading run `a`, the chunks of `a + b` lie where those of `b` do, moved by `a`'s size. */
  lemma {:induction false} ConcatOffset(a: seq<Chunk>, b: seq<Chunk>, j: nat)
    requires j <= |b|
    ensures Offset(a + b, |a| + j) == Total(a) + Offset(b, j)
    decreases j
  {
    if j == 0 {
      assert (a + b)[..|a|] == a[..|a|];
      SamePrefix(a + b, a, |a|, |a|);
    } else {
      ConcatOffset(a, b, j - 1);
      assert (a + b)[|a| + j - 1] == b[j - 1];
    }
  }

  lemma {:induction false} TotalConcat(a: seq<Chunk>, b: seq<Chunk>)
    ensures Total(a + b) == Total(a) + Total(b)
  {
    ConcatOffset(a, b, |b|);
  }

  /** Chunk `i` ends no later than chunk `j > i` starts, and every chunk ends inside the heap. */
  lemma {:induction false} OffsetsApart(cs: seq<Chunk>, i: nat, j: nat)
    requires i < j <= |cs|
    ensures Offset(cs, i) + H + cs[i].size as nat <= Offset(cs, j)
    decreases j - i
  {
    OffsetStep(cs, i);
    if i + 1 < j {
      OffsetsApart(cs, i + 1, j);
      OffsetStep(cs, i + 1);
    }
  }

  lemma {:induction false} OffsetEnd(cs: seq<Chunk>)
    ensures Offset(cs, |cs|) == Total(cs)
  {
  }

  /** A chunk's payload lies inside the heap. */
  lemma {:induction false} ChunkInside(cs: seq<Chunk>, k: nat)
    requires k < |cs|
    ensures Offset(cs, k) + H + cs[k].size as nat <= Total(cs)
  {
    OffsetsApart(cs, k, |cs|);
    OffsetEnd(cs);
  }

  /** Two different chunks have different payload offsets. */
  lemma {:induction false} OffsetsDistinct(cs: seq<Chunk>, i: nat, j: nat)
    requires i < |cs| && j < |cs| && i != j
    ensures Offset(cs, i) != Offset(cs, j)
  {
    if i < j {
      OffsetsApart(cs, i, j);
    } else {
      OffsetsApart(cs, j, i);
    }
  }

  /** No two neighbouring chunks are both free. */
  predicate NoAdjacentFree(cs: seq<Chunk>) {
    forall i :: 0 <= i < |cs| - 1 ==> UsedPair(cs, i)
  }

  /** Chunk `i` or the chunk after it is in use. */
  predicate UsedPair(cs: seq<Chunk>, i: nat)
    requires i + 1 < |cs|
  {
    cs[i].used || cs[i + 1].used
  }

  /** No two neighbouring chunks are both free, except possibly chunk `j` and a neighbour. */
  predicate NoAdjacentFreeBut(cs: seq<Chunk>, k: nat) {
    forall i :: 0 <= i < |cs| - 1 && i != k && i + 1 != k ==> UsedPair(cs, i)
  }

  lemma {:induction false} TotalOne(c: Chunk)
    ensures Total([c]) == c.size as nat + H
  {
    assert Offset([c], 1) == Offset([c], 0) + H + c.size as nat;
  }

  lemma {:induction false} TotalTwo(a: Chunk, b: Chunk)
    ensures Total([a, b]) == a.size as nat + b.size as nat + 2 * H
  {
    assert Offset([a, b], 2) == Offset([a, b], 1) + H + b.size as nat;
    assert Offset([a, b], 1) == Offset([a, b], 0) + H + a.size as nat;
  }

  /** Replacing a run of chunks by one of the same total size keeps the total. */
  lemma {:induction false} TotalReplace(pre: seq<Chunk>, mid: seq<Chunk>, mid': seq<Chunk>, post: seq<Chunk>)
    requires Total(mid) == Total(mid')
    ensures Total(pre + mid + post) == Total(pre + mid' + post)
  {
    TotalConcat(pre + mid, post);
    TotalConcat(pre, mid);
    TotalConcat(pre + mid', post);
    TotalConcat(pre, mid');
  }

  /** Replacing chunk `k` by a run of the same total size keeps the total. */
  lemma {:induction false} ReplaceAt(cs: seq<Chunk>, k: nat, mid: seq<Chunk>)
    requires k < |cs| && Total(mid) == cs[k].size as nat + H
    ensures Total(cs[..k] + mid + cs[k + 1..]) == Total(cs)
  {
    assert cs == cs[..k] + [cs[k]] + cs[k + 1..];
    TotalOne(cs[k]);
    TotalReplace(cs[..k], [cs[k]], mid, cs[k + 1..]);
  }

  /** Replacing a leading run by one of the same total size moves no chunk after it. */
  lemma {:induction false} SameTotalShift(a: seq<Chunk>, a': seq<Chunk>, post: seq<Chunk>, i: nat)
    requires Total(a) == Total(a') && i <= |post|
    ensures Offset(a' + post, |a'| + i) == Offset(a + post, |a| + i)
  {
    ConcatOffset(a, post, i);
    ConcatOffset(a', post, i);
  }

  // ------------------------------------------------------------- allocate

  /** The first chunk from `from` on, in list order, that is free and strictly larger than `req`. */
  function FirstFit(cs: seq<Chunk>, req: u32, from: nat): (r: Option<nat>)
    requires from <= |cs|
    ensures r.Some? ==> from <= r.value < |cs| && !cs[r.value].used && cs[r.value].size > req
    decreases |cs| - from
  {
    if from == |cs| then None
    else if cs[from].size > req && !cs[from].used then Some(from)
    else FirstFit(cs, req, from + 1)
  }

  /** No chunk before the first fit fits, and there is no fit only when no chunk fits. */
  lemma {:induction false} FirstFitSpec(cs: seq<Chunk>, req: u32, from: nat)
    requires from <= |cs|
    ensures FirstFit(cs, req, from).Some? ==>
              forall j :: from <= j < FirstFit(cs, req, from).value ==> cs[j].used || cs[j].size <= req
    ensures FirstFit(cs, req, from).None? <==>
              forall j :: from <= j < |cs| ==> cs[j].used || cs[j].size <= req
    decreases |cs| - from
  {
    if from < |cs| && !(cs[from].size > req && !cs[from].used) {
      FirstFitSpec(cs, req, from + 1);
    }
  }

  /**
   * Taking chunk `k` for a request of `req` bytes: a chunk of at least
   * `req + H + 1` bytes is split into a used chunk of exactly `req` bytes
   * and a free chunk of the rest, placed right after it; a smaller one is
   * used whole.  The test is in uint32_t arithmetic, as in the source.
   */
  function Split(cs: seq<Chunk>, k: nat, req: u32): (r: seq<Chunk>)
    requires k < |cs|
  {
    var whole := cs[k].size;
    if whole as int >= Wrap32(req as int + H + 1) as int then
      cs[..k] + [Chunk(req, true), Chunk(Wrap32(whole as int - req as int - H), false)] + cs[k + 1..]
    else
      cs[k := Chunk(whole, true)]
  }

  /** allocate as a function: the new chunk list and the index of the chunk taken, or none. */
  function AllocateSpec(cs: seq<Chunk>, req: u32): Option<(seq<Chunk>, nat)> {
    match FirstFit(cs, req, 0)
    case None => None
    case Some(k) => Some((Split(cs, k, req), k))
  }

  /** The shape of a split of a chunk larger than the request in a heap below 2^32 bytes. */
  lemma {:induction false} SplitShape(cs: seq<Chunk>, k: nat, req: u32)
    requires k < |cs| && cs[k].size as int + H < TWO_32 && cs[k].size > req
    ensures var cs' := Split(cs, k, req);
            var a := Chunk(req, true);
            var b := Chunk(Wrap32(cs[k].size as int - req as int - H), false);
            if cs[k].size as int >= req as int + H + 1
            then cs' == cs[..k] + [a, b] + cs[k + 1..] && b.size as int == cs[k].size as int - req as int - H
            else cs' == cs[..k] + [Chunk(cs[k].size, true)] + cs[k + 1..]
  {
    assert Wrap32(req as int + H + 1) as int == req as int + H + 1;
  }

  /** A split keeps the total size, and every chunk before it. */
  lemma {:induction false} SplitTotal(cs: seq<Chunk>, k: nat, req: u32)
    requires k < |cs| && cs[k].size as int + H < TWO_32 && cs[k].size > req
    ensures Total(Split(cs, k, req)) == Total(cs)
    ensures Split(cs, k, req)[..k] == cs[..k]
  {
    SplitShape(cs, k, req);
    SplitSlices(cs, k, req);
    TotalOne(cs[k]);
    if cs[k].size as int >= req as int + H + 1 {
      var a := Chunk(req, true);
      var b := Chunk(Wrap32(cs[k].size as int - req as int - H), false);
      TotalTwo(a, b);
      ReplaceAt(cs, k, [a, b]);
    } else {
      TotalOne(Chunk(cs[k].size, true));
      ReplaceAt(cs, k, [Chunk(cs[k].size, true)]);
    }
  }

  /** Splitting a free chunk keeps the no-adjacent-free invariant. */
  lemma {:induction false} SplitNoAdjacentFree(cs: seq<Chunk>, k: nat, req: u32)
    requires k < |cs| && cs[k].size as int + H < TWO_32 && cs[k].size > req
    requires !cs[k].used && NoAdjacentFree(cs)
    ensures NoAdjacentFree(Split(cs, k, req))
  {
    SplitShape(cs, k, req);
    var cs' := Split(cs, k, req);
    if cs[k].size as int >= req as int + H + 1 {
      forall i | 0 <= i < |cs'| - 1 ensures UsedPair(cs', i) {
        if i < k - 1 {
          assert cs'[i] == cs[i] && cs'[i + 1] == cs[i + 1];
          assert UsedPair(cs, i);
        } else if i == k - 1 {
          assert cs'[i + 1].used;
        } else if i == k {
          assert cs'[i].used;
        } else if i == k + 1 {
          assert cs'[i + 1] == cs[k + 1];
          assert UsedPair(cs, k);
        } else {
          assert cs'[i] == cs[i - 1] && cs'[i + 1] == cs[i];
          assert UsedPair(cs, i - 1);
        }
      }
    } else {
      forall i | 0 <= i < |cs'| - 1 ensures UsedPair(cs', i) {
        assert cs'[i] == (if i == k then Chunk(cs[k].size, true) else cs[i]);
        assert cs'[i + 1] == (if i + 1 == k then Chunk(cs[k].size, true) else cs[i + 1]);
        assert UsedPair(cs, i);
      }
    }
  }

  /**
   * In a heap of fewer than 2^32 bytes, allocate keeps the total size and the
   * no-adjacent-free invariant; the chunk taken was free and larger than
   * `req`, keeps its address, is now used and still holds `req` bytes
   * ending strictly inside the heap.
   */
  lemma {:induction false} AllocatePreserves(cs: seq<Chunk>, req: u32)
    requires Total(cs) < TWO_32 && NoAdjacentFree(cs)
    requires AllocateSpec(cs, req).Some?
    ensures var (cs', k) := AllocateSpec(cs, req).value;
            k < |cs| && k < |cs'| && !cs[k].used && cs[k].size > req
            && Total(cs') == Total(cs) && NoAdjacentFree(cs') && cs'[k].used
            && Offset(cs', k) == Offset(cs, k)
            && Offset(cs, k) + H + req as nat < Total(cs) && req <= cs'[k].size
  {
    var k := FirstFit(cs, req, 0).value;
    var cs' := Split(cs, k, req);
    ChunkInside(cs, k);
    SplitShape(cs, k, req);
    SplitSlices(cs, k, req);
    SplitTotal(cs, k, req);
    SplitNoAdjacentFree(cs, k, req);
    SamePrefix(cs, cs', k, k);
  }

  /**
   * A split of chunk `k` for `req` bytes leaves a chunk of exactly `req`
   * bytes followed by a free chunk of the rest when the chunk is large
   * enough, and the whole chunk otherwise; no other chunk changes.
   */
  lemma {:induction false} SplitSlices(cs: seq<Chunk>, k: nat, req: u32)
    requires k < |cs| && cs[k].size as int + H < TWO_32 && cs[k].size > req
    ensures var cs' := Split(cs, k, req);
            cs'[..k] == cs[..k]
            && (if cs[k].size as int >= req as int + H + 1
                then |cs'| == |cs| + 1 && cs'[k] == Chunk(req, true)
                     && cs'[k + 1] == Chunk(Wrap32(cs[k].size as int - req as int - H), false)
                     && cs'[k + 1].size as int == cs[k].size as int - req as int - H
                     && cs'[k + 2..] == cs[k + 1..]
                else |cs'| == |cs| && cs'[k] == Chunk(cs[k].size, true) && cs'[k + 1..] == cs[k + 1..])
  {
    var cs' := Split(cs, k, req);
    SplitShape(cs, k, req);
    if cs[k].size as int >= req as int + H + 1 {
      var pre := cs[..k] + [Chunk(req, true), Chunk(Wrap32(cs[k].size as int - req as int - H), false)];
      assert cs' == pre + cs[k + 1..];
      assert cs'[k + 2..] == cs[k + 1..];
    } else {
      assert cs'[k + 1..] == cs[k + 1..];
    }
  }

  /** The first fit in a heap below 2^32 bytes is split as SplitSlices describes. */
  lemma {:induction false} AllocateShape(cs: seq<Chunk>, req: u32)
    requires Total(cs) < TWO_32
    requires AllocateSpec(cs, req).Some?
    ensures var (cs', k) := AllocateSpec(cs, req).value;
            k < |cs| && cs[k].size as int + H < TWO_32 && cs[k].size > req && cs' == Split(cs, k, req)
  {
    ChunkInside(cs, FirstFit(cs, req, 0).value);
  }

  /** Every chunk address before an allocation is still a chunk address after it. */
  lemma {:induction false} SplitKeepsChunk(cs: seq<Chunk>, req: u32, j0: nat) returns (j: nat)
    requires Total(cs) < TWO_32 && NoAdjacentFree(cs)
    requires AllocateSpec(cs, req).Some? && j0 < |cs|
    ensures j < |AllocateSpec(cs, req).value.0|
    ensures Offset(AllocateSpec(cs, req).value.0, j) == Offset(cs, j0)
  {
    var (cs', k) := AllocateSpec(cs, req).value;
    ChunkInside(cs, k);
    SplitShape(cs, k, req);
    SplitTotal(cs, k, req);
    if j0 <= k {
      j := j0;
      SamePrefix(cs, cs', k, j);
      return;
    }
    assert cs == cs[..k] + [cs[k]] + cs[k + 1..];
    TotalOne(cs[k]);
    if cs[k].size as int >= req as int + H + 1 {
      var a := Chunk(req, true);
      var b := Chunk(Wrap32(cs[k].size as int - req as int - H), false);
      TotalTwo(a, b);
      TotalConcat(cs[..k], [cs[k]]);
      TotalConcat(cs[..k], [a, b]);
      assert cs' == (cs[..k] + [a, b]) + cs[k + 1..];
      assert cs == (cs[..k] + [cs[k]]) + cs[k + 1..];
      SameTotalShift(cs[..k] + [cs[k]], cs[..k] + [a, b], cs[k + 1..], j0 - k - 1);
      j := j0 + 1;
    } else {
      var a := Chunk(cs[k].size, true);
      TotalOne(a);
      TotalConcat(cs[..k], [cs[k]]);
      TotalConcat(cs[..k], [a]);
      assert cs' == (cs[..k] + [a]) + cs[k + 1..];
      SameTotalShift(cs[..k] + [cs[k]], cs[..k] + [a], cs[k + 1..], j0 - k - 1);
      j := j0;
    }
  }

  // ----------------------------------------------------------------- kfree

  /** Two neighbours and a header fit in a heap below 2^32 bytes. */
  lemma {:induction false} NeighboursFit(cs: seq<Chunk>, i: nat)
    requires i + 1 < |cs| && Total(cs) < TWO_32
    ensures cs[i].size as int + cs[i + 1].size as int + H < TWO_32
  {
    OffsetStep(cs, i);
    ChunkInside(cs, i + 1);
  }

  /** Chunk `i + 1` is absorbed into chunk `i`, which grows by its size and header. */
  function Merge(cs: seq<Chunk>, i: nat): (r: seq<Chunk>)
    requires i + 1 < |cs|
    ensures |r| == |cs| - 1
  {
    cs[..i] + [Chunk(Wrap32(cs[i].size as int + cs[i + 1].size as int + H), cs[i].used)] + cs[i + 2..]
  }

  /** The chunks around a merge stay where they were in the list. */
  lemma {:induction false} MergeIndex(cs: seq<Chunk>, i: nat)
    requires i + 1 < |cs|
    ensures forall x :: 0 <= x < i ==> Merge(cs, i)[x] == cs[x]
    ensures forall x :: i < x < |cs| - 1 ==> Merge(cs, i)[x] == cs[x + 1]
    ensures Merge(cs, i)[i].used == cs[i].used
  {
  }

  /** Replacing chunks `i` and `i + 1` by a run of the same total size keeps the total. */
  lemma {:induction false} ReplacePair(cs: seq<Chunk>, i: nat, mid: seq<Chunk>)
    requires i + 1 < |cs| && Total(mid) == cs[i].size as nat + cs[i + 1].size as nat + 2 * H
    ensures Total(cs[..i] + mid + cs[i + 2..]) == Total(cs)
  {
    assert cs == cs[..i] + [cs[i], cs[i + 1]] + cs[i + 2..];
    TotalTwo(cs[i], cs[i + 1]);
    TotalReplace(cs[..i], [cs[i], cs[i + 1]], mid, cs[i + 2..]);
  }

  /** A merge leaves the chunks before it alone. */
  lemma {:induction false} MergePrefix(cs: seq<Chunk>, i: nat)
    requires i + 1 < |cs|
    ensures Merge(cs, i)[..i] == cs[..i]
  {
  }

  /** When the sizes do not wrap, a merge keeps the total size and the merged chunk's address. */
  lemma {:induction false} MergeTotal(cs: seq<Chunk>, i: nat)
    requires i + 1 < |cs| && cs[i].size as int + cs[i + 1].size as int + H < TWO_32
    ensures Total(Merge(cs, i)) == Total(cs)
    ensures Merge(cs, i)[i].size as int == cs[i].size as int + cs[i + 1].size as int + H
    ensures Merge(cs, i)[..i] == cs[..i] && Offset(Merge(cs, i), i) == Offset(cs, i)
  {
    var c := Chunk(Wrap32(cs[i].size as int + cs[i + 1].size as int + H), cs[i].used);
    TotalOne(c);
    ReplacePair(cs, i, [c]);
    MergePrefix(cs, i);
    SamePrefix(cs, Merge(cs, i), i, i);
  }

  /** The span `lo..hi` of the heap lies within chunk `j`, header included. */
  ghost predicate Covers(cs: seq<Chunk>, j: nat, lo: nat, hi: nat) {
    j < |cs| && Offset(cs, j) <= lo && hi <= Offset(cs, j) + H + cs[j].size as nat
  }

  /** A merge keeps covered whatever either of the two chunks covered. */
  lemma {:induction false} MergeCovers(cs: seq<Chunk>, i: nat, lo: nat, hi: nat)
    requires i + 1 < |cs| && cs[i].size as int + cs[i + 1].size as int + H < TWO_32
    requires Covers(cs, i, lo, hi) || Covers(cs, i + 1, lo, hi)
    ensures Covers(Merge(cs, i), i, lo, hi)
  {
    MergeTotal(cs, i);
    OffsetStep(cs, i);
  }

  /** Merging free chunk `k` into its predecessor when that one is free too; also the index of the result. */
  function CoalescePrev(c: seq<Chunk>, k: nat): (r: (seq<Chunk>, nat))
    requires k < |c|
    ensures r.1 < |r.0|
  {
    if k > 0 && !c[k - 1].used then (Merge(c, k - 1), k - 1) else (c, k)
  }

  /** Merging a free successor into chunk `j`. */
  function CoalesceNext(c: seq<Chunk>, j: nat): (r: seq<Chunk>)
    requires j < |c|
    ensures j < |r|
  {
    if j + 1 < |c| && !c[j + 1].used then Merge(c, j) else c
  }

  /**
   * kfree on chunk `k`: mark it free, merge it into a free predecessor, then
   * merge a free successor into the result.  Also returns the index of the
   * chunk that now holds the freed bytes.
   */
  function FreeSpec(cs: seq<Chunk>, k: nat): (r: (seq<Chunk>, nat))
    requires k < |cs|
    ensures r.1 < |r.0|
  {
    var (c2, j) := CoalescePrev(cs[k := Chunk(cs[k].size, false)], k);
    (CoalesceNext(c2, j), j)
  }

  /** Marking chunk `k` free changes neither the total size nor any address, and spoils the invariant only around `k`. */
  lemma {:induction false} MarkFree(cs: seq<Chunk>, k: nat)
    requires k < |cs| && NoAdjacentFree(cs)
    ensures var c1 := cs[k := Chunk(cs[k].size, false)];
            Total(c1) == Total(cs) && NoAdjacentFreeBut(c1, k) && c1[..k] == cs[..k]
            && Offset(c1, k) == Offset(cs, k)
  {
    var c1 := cs[k := Chunk(cs[k].size, false)];
    assert cs == cs[..k] + [cs[k]] + cs[k + 1..];
    assert c1 == cs[..k] + [c1[k]] + cs[k + 1..];
    TotalOne(cs[k]);
    TotalOne(c1[k]);
    TotalReplace(cs[..k], [cs[k]], [c1[k]], cs[k + 1..]);
    SamePrefix(cs, c1, k, k);
    forall i | 0 <= i < |c1| - 1 && i != k && i + 1 != k ensures UsedPair(c1, i) {
      assert UsedPair(cs, i);
    }
  }

  /** Merging free chunk `k` into a free predecessor leaves the invariant spoilt only around the merged chunk, whose predecessor is used. */
  lemma {:induction false} IntoPrev(c: seq<Chunk>, k: nat)
    requires 0 < k < |c| && !c[k - 1].used && NoAdjacentFreeBut(c, k)
    ensures NoAdjacentFreeBut(Merge(c, k - 1), k - 1)
    ensures k - 1 > 0 ==> Merge(c, k - 1)[k - 2].used
    ensures !Merge(c, k - 1)[k - 1].used
  {
    MergeIndex(c, k - 1);
    var m := Merge(c, k - 1);
    if k - 1 > 0 {
      assert UsedPair(c, k - 2);
    }
    forall i | 0 <= i < |m| - 1 && i + 1 != k - 1 && i != k - 1 ensures UsedPair(m, i) {
      if i + 1 < k - 1 {
        assert m[i] == c[i] && m[i + 1] == c[i + 1];
        assert UsedPair(c, i);
      } else {
        assert m[i] == c[i + 1] && m[i + 1] == c[i + 2];
        assert UsedPair(c, i + 1);
      }
    }
  }

  /** Merging a free successor into chunk `j`, whose predecessor is used, restores the invariant. */
  lemma {:induction false} IntoNext(c: seq<Chunk>, j: nat)
    requires j + 1 < |c| && !c[j + 1].used && NoAdjacentFreeBut(c, j)
    requires j > 0 ==> c[j - 1].used
    ensures NoAdjacentFree(Merge(c, j))
  {
    MergeIndex(c, j);
    var m := Merge(c, j);
    if j + 2 < |c| {
      assert UsedPair(c, j + 1);
    }
    forall i | 0 <= i < |m| - 1 ensures UsedPair(m, i) {
      if i + 1 < j {
        assert m[i] == c[i] && m[i + 1] == c[i + 1];
        assert UsedPair(c, i);
      } else if i + 1 == j {
        assert m[i] == c[i];
      } else if i == j {
        assert m[i + 1] == c[i + 2];
      } else {
        assert m[i] == c[i + 1] && m[i + 1] == c[i + 2];
        assert UsedPair(c, i + 1);
      }
    }
  }

  /** A chunk with used neighbours leaves nothing to merge. */
  lemma {:induction false} NoMerge(c: seq<Chunk>, j: nat)
    requires j < |c| && NoAdjacentFreeBut(c, j)
    requires j > 0 ==> c[j - 1].used
    requires j + 1 < |c| ==> c[j + 1].used
    ensures NoAdjacentFree(c)
  {
    forall i | 0 <= i < |c| - 1 ensures UsedPair(c, i) {
    }
  }

  /** The first merge of kfree keeps the total and what the freed chunk covered, and leaves a free chunk with a used predecessor. */
  lemma {:induction false} PrevPhase(c: seq<Chunk>, k: nat, lo: nat, hi: nat)
    requires k < |c| && !c[k].used && Total(c) < TWO_32 && NoAdjacentFreeBut(c, k) && Covers(c, k, lo, hi)
    ensures var (c2, j) := CoalescePrev(c, k);
            Total(c2) == Total(c) && Covers(c2, j, lo, hi) && !c2[j].used
            && NoAdjacentFreeBut(c2, j) && (j > 0 ==> c2[j - 1].used)
  {
    if k > 0 && !c[k - 1].used {
      NeighboursFit(c, k - 1);
      MergeTotal(c, k - 1);
      MergeCovers(c, k - 1, lo, hi);
      IntoPrev(c, k);
    }
  }

  /** The second merge of kfree keeps the total and what the freed chunk covered, and restores the invariant. */
  lemma {:induction false} NextPhase(c: seq<Chunk>, j: nat, lo: nat, hi: nat)
    requires j < |c| && !c[j].used && Total(c) < TWO_32 && Covers(c, j, lo, hi)
    requires NoAdjacentFreeBut(c, j) && (j > 0 ==> c[j - 1].used)
    ensures var c' := CoalesceNext(c, j);
            Total(c') == Total(c) && Covers(c', j, lo, hi) && !c'[j].used && NoAdjacentFree(c')
  {
    if j + 1 < |c| && !c[j + 1].used {
      NeighboursFit(c, j);
      MergeTotal(c, j);
      MergeCovers(c, j, lo, hi);
      IntoNext(c, j);
      MergeIndex(c, j);
    } else {
      NoMerge(c, j);
    }
  }

  /**
   * In a heap of fewer than 2^32 bytes, kfree keeps the total size and the
   * no-adjacent-free invariant, and the freed chunk's header and payload end
   * up inside one free chunk.
   */
  lemma {:induction false} FreePreserves(cs: seq<Chunk>, k: nat)
    requires k < |cs| && Total(cs) < TWO_32 && NoAdjacentFree(cs)
    ensures var (cs', j) := FreeSpec(cs, k);
            Total(cs') == Total(cs) && NoAdjacentFree(cs') && !cs'[j].used
            && Covers(cs', j, Offset(cs, k), Offset(cs, k) + H + cs[k].size as nat)
  {
    var lo := Offset(cs, k);
    var hi := Offset(cs, k) + H + cs[k].size as nat;
    var c1 := cs[k := Chunk(cs[k].size, false)];
    MarkFree(cs, k);
    PrevPhase(c1, k, lo, hi);
    var (c2, j) := CoalescePrev(c1, k);
    NextPhase(c2, j, lo, hi);
  }

  /** kfree keeps the total size and leaves the chunk holding the freed bytes free. */
  lemma {:induction false} FreeKeepsTotal(cs: seq<Chunk>, k: nat)
    requires k < |cs| && Total(cs) < TWO_32 && NoAdjacentFree(cs)
    ensures Total(FreeSpec(cs, k).0) == Total(cs) && !FreeSpec(cs, k).0[FreeSpec(cs, k).1].used
  {
    FreePreserves(cs, k);
  }

  /**
   * Freeing the only used chunk of a heap that keeps the invariant
   * coalesces everything into one free chunk of the whole heap, which is
   * the state heap_init leaves.
   */
  lemma {:induction false} FreeLastRestoresInit(cs: seq<Chunk>, k: nat)
    requires k < |cs| && Total(cs) < TWO_32 && NoAdjacentFree(cs)
    requires forall i :: 0 <= i < |cs| && i != k ==> !cs[i].used
    ensures |FreeSpec(cs, k).0| == 1 && FreeSpec(cs, k).0[0] == Chunk(Wrap32(Total(cs) - H), false)
  {
    FreeLastLength(cs, k);
    FreeKeepsTotal(cs, k);
    SingleChunk(FreeSpec(cs, k).0, Total(cs));
  }

  /** A one-chunk heap of `t` bytes whose chunk is free is the heap heap_init leaves. */
  lemma {:induction false} SingleChunk(cs: seq<Chunk>, t: nat)
    requires |cs| == 1 && Total(cs) == t && t < TWO_32 && !cs[0].used
    ensures cs == [Chunk(Wrap32(t - H), false)]
  {
    assert cs == [cs[0]];
    TotalOne(cs[0]);
  }

  /** With every other chunk free, the invariant leaves at most one free chunk on each side of `k`, and kfree merges them all. */
  lemma {:induction false} FreeLastLength(cs: seq<Chunk>, k: nat)
    requires k < |cs| && NoAdjacentFree(cs)
    requires forall i :: 0 <= i < |cs| && i != k ==> !cs[i].used
    ensures |FreeSpec(cs, k).0| == 1
  {
    if k >= 2 {
      NoAdjacentAt(cs, 0);
      assert false;
    }
    if |cs| >= k + 3 {
      NoAdjacentAt(cs, k + 1);
      assert false;
    }
  }

  lemma {:induction false} NoAdjacentAt(cs: seq<Chunk>, i: nat)
    requires NoAdjacentFree(cs) && i + 1 < |cs|
    ensures cs[i].used || cs[i + 1].used
  {
    assert UsedPair(cs, i);
  }

  // --------------------------------------------------------- heap_init maps

  /** The virtual address of the heap's page `i`, in 32-bit pointer arithmetic. */
  function PageVirt(va: u32, i: nat): u32 {
    Wrap32(va as int + i * PAGE_SIZE)
  }

  lemma {:induction false} PageVirtStep(va: u32, i: nat)
    ensures PageVirt(va, i + 1) == Wrap32(PageVirt(va, i) as int + PAGE_SIZE)
  {
    var x := va as int + i * PAGE_SIZE;
    assert va as int + (i + 1) * PAGE_SIZE == x + PAGE_SIZE;
    assert (x % TWO_32 + PAGE_SIZE) % TWO_32 == (x + PAGE_SIZE) % TWO_32;
  }

  const HEAP_FLAGS: u8 := Paging.PAGING_IS_PRESENT + Paging.PAGING_IS_WRITEABLE

  /** The memory after heap_init has mapped the first `n` pages, page `i` onto frame `frames[i]`. */
  function MapPages(m: seq<u32>, dir: u32, va: u32, frames: seq<u32>, n: nat): (r: seq<u32>)
    requires |m| == Paging.MEM_WORDS && Paging.IsAligned(dir) && n <= |frames|
    ensures |r| == Paging.MEM_WORDS
  {
    if n == 0 then m
    else Paging.MapEffect(MapPages(m, dir, va, frames, n - 1), dir, PageVirt(va, n - 1), frames[n - 1], HEAP_FLAGS)
  }

  lemma {:induction false} MapPagesStep(m0: seq<u32>, before: seq<u32>, after: seq<u32>, dir: u32, va: u32, frames: seq<u32>, i: nat)
    requires |m0| == Paging.MEM_WORDS && Paging.IsAligned(dir) && i < |frames|
    requires before == MapPages(m0, dir, va, frames, i)
    requires after == Paging.MapEffect(before, dir, PageVirt(va, i), frames[i], HEAP_FLAGS)
    ensures after == MapPages(m0, dir, va, frames, i + 1)
  {
  }

  /** One round of heap_init's loop: page `i` onto frame `frames[i]`. */
  method MapHeapPage(pmem: array<u32>, dir: u32, va: u32, cur: u32, frames: seq<u32>, i: nat, ghost m0: seq<u32>)
    requires pmem.Length == Paging.MEM_WORDS && |m0| == Paging.MEM_WORDS && Paging.IsAligned(dir)
    requires i < |frames| && cur == PageVirt(va, i)
    requires pmem[..] == MapPages(m0, dir, va, frames, i)
    modifies pmem
    ensures pmem[..] == MapPages(m0, dir, va, frames, i + 1)
  {
    ghost var before := pmem[..];
    var _ := Paging.Map(pmem, dir, cur, frames[i], HEAP_FLAGS);
    MapPagesStep(m0, before, pmem[..], dir, va, frames, i);
  }

  /** heap_init's loop: page `i` of the heap onto frame `frames[i]`, present and writeable. */
  method MapHeapPages(pmem: array<u32>, dir: u32, va: u32, frames: seq<u32>)
    requires pmem.Length == Paging.MEM_WORDS && Paging.IsAligned(dir)
    modifies pmem
    ensures pmem[..] == MapPages(old(pmem[..]), dir, va, frames, |frames|)
  {
    ghost var m0 := pmem[..];
    var cur := va;
    var i := 0;
    while i < |frames|
      invariant i <= |frames| && cur == PageVirt(va, i)
      invariant pmem[..] == MapPages(m0, dir, va, frames, i)
    {
      MapHeapPage(pmem, dir, va, cur, frames, i, m0);
      PageVirtStep(va, i);
      cur := Wrap32(cur as int + PAGE_SIZE);
      i := i + 1;
    }
  }

  /**
   * allocate's search: walks the chunks in list order, as the `next` links
   * do, and stops at the first free chunk strictly larger than `req`; also
   * the address of that chunk's header.
   */
  method FindFit(cs: seq<Chunk>, req: u32, va: u32) returns (found: Option<nat>, addr: int)
    ensures found == FirstFit(cs, req, 0)
    ensures found.Some? ==> addr == va as int + Offset(cs, found.value)
  {
    found := None;
    addr := va as int;
    var i := 0;
    while i < |cs| && found.None?
      invariant i <= |cs|
      invariant found.None? ==> FirstFit(cs, req, 0) == FirstFit(cs, req, i)
                                && addr == va as int + Offset(cs, i)
      invariant found.Some? ==> found == FirstFit(cs, req, 0)
                                && addr == va as int + Offset(cs, found.value)
    {
      if cs[i].size > req && !cs[i].used {
        found := Some(i);
      } else {
        OffsetStep(cs, i);
        addr := addr + H + cs[i].size as int;
      }
      i := i + 1;
    }
  }

  // ------------------------------------------------------------- the heap

  /** A payload address before an allocation is still one after it. */
  lemma {:induction false} SurvivesAllocate(va: u32, cs: seq<Chunk>, req: u32, ptr: u32) returns (j: nat)
    requires Total(cs) < TWO_32 && NoAdjacentFree(cs) && AllocateSpec(cs, req).Some?
    requires exists j0 :: 0 <= j0 < |cs| && DataAddr(va, cs, j0) == ptr
    ensures j < |AllocateSpec(cs, req).value.0| && DataAddr(va, AllocateSpec(cs, req).value.0, j) == ptr
  {
    var j0 :| 0 <= j0 < |cs| && DataAddr(va, cs, j0) == ptr;
    j := SplitKeepsChunk(cs, req, j0);
  }

  /** The address kmalloc returns for chunk `k` of a heap at `va`: just past its header. */
  function DataAddr(va: u32, cs: seq<Chunk>, k: nat): u32
    requires k <= |cs|
  {
    Wrap32(va as int + Offset(cs, k) + H)
  }

  // ------------------------------------------------- headers in the heap bytes

  /** The byte offsets of the fields of `memory_chunk_t` on i686; bytes 13 to 15 are padding. */
  const NEXT_AT: nat := 0
  const PREV_AT: nat := 4
  const SIZE_AT: nat := 8
  const ALLOCATED_AT: nat := 12

  /** A C `bool` as the byte stored. */
  function Flag(b: bool): u8 {
    if b then 1 else 0
  }

  /** `r` is `m` with the uint32_t `v` stored little-endian at byte `o`. */
  ghost predicate Stored32(m: seq<u8>, r: seq<u8>, o: nat, v: u32) {
    |r| == |m| && o + 4 <= |m| && LE32(r, o) == v
    && forall i :: 0 <= i < |m| && !(o <= i < o + 4) ==> r[i] == m[i]
  }

  /** A store to a uint32_t field of a header in the heap bytes. */
  method Write32(a: array<u8>, o: nat, v: u32)
    requires o + 4 <= a.Length
    modifies a
    ensures Stored32(old(a[..]), a[..], o, v)
  {
    LE32OfBytes(v);
    var b := Bytes32(v);
    a[o] := b[0];
    a[o + 1] := b[1];
    a[o + 2] := b[2];
    a[o + 3] := b[3];
  }

  /** The header at byte `o` of `m` holds these four fields. */
  ghost predicate HeaderIs(m: seq<u8>, o: nat, next: u32, prev: u32, size: u32, used: bool) {
    o + H <= |m|
    && LE32(m, o + NEXT_AT) == next && LE32(m, o + PREV_AT) == prev
    && LE32(m, o + SIZE_AT) == size && m[o + ALLOCATED_AT] == Flag(used)
  }

  /** The bytes of a uint32_t that are unchanged read the same. */
  lemma {:induction false} LE32Kept(m: seq<u8>, m': seq<u8>, o: nat)
    requires o + 4 <= |m| == |m'|
    requires forall i :: o <= i < o + 4 ==> m'[i] == m[i]
    ensures LE32(m', o) == LE32(m, o)
  {
    LE32Same(m', o, m, o);
  }

  /** A header whose thirteen bytes are unchanged still reads the same. */
  lemma {:induction false} HeaderKept(m: seq<u8>, m': seq<u8>, o: nat, next: u32, prev: u32, size: u32, used: bool)
    requires HeaderIs(m, o, next, prev, size, used) && |m'| == |m|
    requires forall i :: o <= i <= o + ALLOCATED_AT ==> m'[i] == m[i]
    ensures HeaderIs(m', o, next, prev, size, used)
  {
    LE32Kept(m, m', o + NEXT_AT);
    LE32Kept(m, m', o + PREV_AT);
    LE32Kept(m, m', o + SIZE_AT);
    assert m'[o + ALLOCATED_AT] == m[o + ALLOCATED_AT];
  }

  /** The address of chunk `k`'s header in a heap at `va`. */
  function ChunkAddr(va: u32, cs: seq<Chunk>, k: nat): u32
    requires k <= |cs|
  {
    Wrap32(va as int + Offset(cs, k))
  }

  /** The `next` pointer chunk `k` holds: the following chunk's header, or NULL for the last one. */
  function NextLink(va: u32, cs: seq<Chunk>, k: nat): u32
    requires k < |cs|
  {
    if k + 1 < |cs| then ChunkAddr(va, cs, k + 1) else 0
  }

  /** The `prev` pointer chunk `k` holds: the preceding chunk's header, or NULL for the first one. */
  function PrevLink(va: u32, cs: seq<Chunk>, k: nat): u32
    requires k < |cs|
  {
    if k > 0 then ChunkAddr(va, cs, k - 1) else 0
  }

  /** Chunk `k`'s header in the heap bytes `m` holds its links, its size and its flag. */
  ghost predicate HeaderAt(m: seq<u8>, va: u32, cs: seq<Chunk>, k: nat)
    requires k < |cs|
  {
    HeaderIs(m, Offset(cs, k), NextLink(va, cs, k), PrevLink(va, cs, k), cs[k].size, cs[k].used)
  }

  /** Every chunk's header is stored in the heap bytes. */
  ghost predicate Headers(m: seq<u8>, va: u32, cs: seq<Chunk>) {
    forall k :: 0 <= k < |cs| ==> HeaderAt(m, va, cs, k)
  }

  /**
   * In a heap above address 0 that fits the address space, a `next` link is
   * NULL exactly for the last chunk and a `prev` link exactly for the first,
   * and a chunk's address is the heap's plus its offset: the NULL tests of
   * heap.c are the index tests of this model.
   */
  lemma {:induction false} LinksNull(va: u32, cs: seq<Chunk>, k: nat)
    requires 0 < va && va as int + Total(cs) <= TWO_32 && k < |cs|
    ensures ChunkAddr(va, cs, k) as int == va as int + Offset(cs, k)
    ensures NextLink(va, cs, k) == 0 <==> k + 1 == |cs|
    ensures PrevLink(va, cs, k) == 0 <==> k == 0
  {
    ChunkInside(cs, k);
    if k + 1 < |cs| {
      ChunkInside(cs, k + 1);
    }
    if k > 0 {
      ChunkInside(cs, k - 1);
    }
  }

  /** Two chunk lists of equal length and sizes place their chunks alike. */
  lemma {:induction false} SameSizes(cs: seq<Chunk>, cs': seq<Chunk>, i: nat)
    requires |cs| == |cs'| && i <= |cs|
    requires forall x :: 0 <= x < |cs| ==> cs[x].size == cs'[x].size
    ensures Offset(cs, i) == Offset(cs', i)
  {
    if i > 0 {
      SameSizes(cs, cs', i - 1);
      OffsetStep(cs, i - 1);
      OffsetStep(cs', i - 1);
    }
  }

  /** Chunk `k` and the chunk after it, if any, lie inside the heap. */
  lemma {:induction false} NextInside(cs: seq<Chunk>, k: nat)
    requires k < |cs|
    ensures Offset(cs, k + 1) == Offset(cs, k) + H + cs[k].size as nat <= Total(cs)
    ensures k + 1 < |cs| ==> Offset(cs, k + 1) + H + cs[k + 1].size as nat <= Total(cs)
  {
    OffsetStep(cs, k);
    ChunkInside(cs, k);
    if k + 1 < |cs| {
      ChunkInside(cs, k + 1);
    }
  }

  /** Chunk `j` of `cs'` links forward like chunk `j0` of `cs` when the chunks after them lie at the same place. */
  lemma {:induction false} NextAlike(va: u32, cs: seq<Chunk>, cs': seq<Chunk>, j0: nat, j: nat)
    requires j0 < |cs| && j < |cs'|
    requires (j + 1 < |cs'| <==> j0 + 1 < |cs|) && (j + 1 < |cs'| ==> Offset(cs', j + 1) == Offset(cs, j0 + 1))
    ensures NextLink(va, cs', j) == NextLink(va, cs, j0)
  {
  }

  /** Chunk `j` of `cs'` links back like chunk `j0` of `cs` when the chunks before them lie at the same place. */
  lemma {:induction false} PrevAlike(va: u32, cs: seq<Chunk>, cs': seq<Chunk>, j0: nat, j: nat)
    requires j0 < |cs| && j < |cs'|
    requires (j > 0 <==> j0 > 0) && (j > 0 ==> Offset(cs', j - 1) == Offset(cs, j0 - 1))
    ensures PrevLink(va, cs', j) == PrevLink(va, cs, j0)
  {
  }

  /**
   * A header that no store reached, of a chunk that keeps its place in the
   * heap, its links and its contents, is still in step.
   */
  lemma {:induction false} Unreached(m: seq<u8>, r: seq<u8>, va: u32, cs: seq<Chunk>, cs': seq<Chunk>, j0: nat, j: nat)
    requires j0 < |cs| && j < |cs'| && |r| == |m| && HeaderAt(m, va, cs, j0) && cs'[j] == cs[j0]
    requires Offset(cs', j) == Offset(cs, j0)
    requires (j + 1 < |cs'| <==> j0 + 1 < |cs|) && (j + 1 < |cs'| ==> Offset(cs', j + 1) == Offset(cs, j0 + 1))
    requires (j > 0 <==> j0 > 0) && (j > 0 ==> Offset(cs', j - 1) == Offset(cs, j0 - 1))
    requires forall i :: Offset(cs, j0) <= i <= Offset(cs, j0) + ALLOCATED_AT ==> r[i] == m[i]
    ensures HeaderAt(r, va, cs', j)
  {
    NextAlike(va, cs, cs', j0, j);
    PrevAlike(va, cs, cs', j0, j);
    HeaderKept(m, r, Offset(cs, j0), NextLink(va, cs, j0), PrevLink(va, cs, j0), cs[j0].size, cs[j0].used);
  }

  /** The header at `o` with its flag byte rewritten. */
  lemma {:induction false} HeaderFlag(m: seq<u8>, o: nat, next: u32, prev: u32, size: u32, used: bool, b: bool)
    requires HeaderIs(m, o, next, prev, size, used)
    ensures HeaderIs(m[o + ALLOCATED_AT := Flag(b)], o, next, prev, size, b)
  {
    var m' := m[o + ALLOCATED_AT := Flag(b)];
    LE32Kept(m, m', o + NEXT_AT);
    LE32Kept(m, m', o + PREV_AT);
    LE32Kept(m, m', o + SIZE_AT);
  }

  /** Rewriting chunk `k`'s flag byte keeps every header in step with a list where only that chunk's flag changed. */
  lemma {:induction false} MarkHeaders(m: seq<u8>, va: u32, cs: seq<Chunk>, k: nat, b: bool)
    requires k < |cs| && |m| == Total(cs) && Headers(m, va, cs)
    ensures Offset(cs, k) + H <= |m|
    ensures Headers(m[Offset(cs, k) + ALLOCATED_AT := Flag(b)], va, cs[k := Chunk(cs[k].size, b)])
  {
    var c' := cs[k := Chunk(cs[k].size, b)];
    var o := Offset(cs, k);
    ChunkInside(cs, k);
    var m' := m[o + ALLOCATED_AT := Flag(b)];
    forall x | 0 <= x <= |cs| ensures Offset(c', x) == Offset(cs, x) {
      SameSizes(c', cs, x);
    }
    forall j | 0 <= j < |c'| ensures HeaderAt(m', va, c', j) {
      assert HeaderAt(m, va, cs, j);
      assert NextLink(va, c', j) == NextLink(va, cs, j) && PrevLink(va, c', j) == PrevLink(va, cs, j);
      if j == k {
        HeaderFlag(m, o, NextLink(va, cs, j), PrevLink(va, cs, j), cs[j].size, cs[j].used, b);
      } else {
        if j < k {
          OffsetsApart(cs, j, k);
        } else {
          OffsetsApart(cs, k, j);
        }
        HeaderKept(m, m', Offset(cs, j), NextLink(va, cs, j), PrevLink(va, cs, j), cs[j].size, cs[j].used);
      }
    }
  }

  /** Writing only inside chunk `k`'s payload keeps every header. */
  lemma {:induction false} PayloadKept(m: seq<u8>, r: seq<u8>, va: u32, cs: seq<Chunk>, k: nat)
    requires k < |cs| && Headers(m, va, cs) && |r| == |m|
    requires forall i :: 0 <= i < |m| && !(Offset(cs, k) + H <= i < Offset(cs, k) + H + cs[k].size as nat) ==> r[i] == m[i]
    ensures Headers(r, va, cs)
  {
    forall j | 0 <= j < |cs| ensures HeaderAt(r, va, cs, j) {
      assert HeaderAt(m, va, cs, j);
      if j < k {
        OffsetsApart(cs, j, k);
      } else if j > k {
        OffsetsApart(cs, k, j);
      }
      HeaderKept(m, r, Offset(cs, j), NextLink(va, cs, j), PrevLink(va, cs, j), cs[j].size, cs[j].used);
    }
  }

  // ------------------------------------------------------ allocate's stores

  /** Where a split of chunk `k` for `req` bytes puts the new header. */
  function NewAt(cs: seq<Chunk>, k: nat, req: u32): nat
    requires k < |cs|
  {
    Offset(cs, k) + H + req as nat
  }

  /**
   * `r` is `m` after allocate has split the chunk whose header is at `o` and
   * taken it: a whole new header at `n` (free, size `rest`, `prev` = `addr`,
   * `next` = `next`), the taken chunk's `next` = `newAddr`, size `req` and
   * flag set, the `prev` of the header at `p` = `newAddr` when `hasNext`, and
   * every other byte as it was.
   */
  ghost predicate TakeWritten(m: seq<u8>, r: seq<u8>, o: nat, n: nat, p: nat, hasNext: bool,
                              req: u32, rest: u32, addr: u32, next: u32, newAddr: u32)
  {
    |r| == |m| && o + H <= n && n + H <= |m| && (hasNext ==> n + H <= p && p + H <= |m|)
    && HeaderIs(r, n, next, addr, rest, false)
    && LE32(r, o + NEXT_AT) == newAddr && LE32(r, o + SIZE_AT) == req && r[o + ALLOCATED_AT] == Flag(true)
    && (hasNext ==> LE32(r, p + PREV_AT) == newAddr)
    && forall i :: 0 <= i < |m| && !(o <= i < o + PREV_AT) && !(o + SIZE_AT <= i <= o + ALLOCATED_AT)
                     && !(n <= i <= n + ALLOCATED_AT) && !(hasNext && p + PREV_AT <= i < p + SIZE_AT)
                   ==> r[i] == m[i]
  }

  /** `r` is `m` with a whole header written at `n` and every other byte as it was. */
  ghost predicate HeaderWritten(m: seq<u8>, r: seq<u8>, n: nat, next: u32, prev: u32, size: u32, used: bool) {
    |r| == |m| && HeaderIs(r, n, next, prev, size, used)
    && forall i :: 0 <= i < |m| && !(n <= i <= n + ALLOCATED_AT) ==> r[i] == m[i]
  }

  /** `r` is `m` with the header at `o` given size `size`, `next` = `next` and its flag set, and every other byte as it was. */
  ghost predicate Claimed(m: seq<u8>, r: seq<u8>, o: nat, size: u32, next: u32) {
    |r| == |m| && o + H <= |m|
    && LE32(r, o + NEXT_AT) == next && LE32(r, o + SIZE_AT) == size && r[o + ALLOCATED_AT] == Flag(true)
    && forall i :: 0 <= i < |m| && !(o <= i < o + PREV_AT) && !(o + SIZE_AT <= i <= o + ALLOCATED_AT) ==> r[i] == m[i]
  }

  /**
   * allocate's stores for a split, in the order of heap.c, leave what
   * TakeWritten says: the new chunk's header, the next chunk's `prev` when
   * there is one, then the taken chunk's size, `next` and flag.
   */
  lemma {:induction false} TakeSteps(m: seq<u8>, m4: seq<u8>, m5: seq<u8>,
                  r: seq<u8>, o: nat, n: nat, p: nat, hasNext: bool,
                  req: u32, rest: u32, addr: u32, next: u32, newAddr: u32)
    requires o + H <= n && n + H <= |m| && (hasNext ==> n + H <= p && p + H <= |m|)
    requires HeaderWritten(m, m4, n, next, addr, rest, false)
    requires if hasNext then Stored32(m4, m5, p + PREV_AT, newAddr) else m5 == m4
    requires Claimed(m5, r, o, req, newAddr)
    ensures TakeWritten(m, r, o, n, p, hasNext, req, rest, addr, next, newAddr)
  {
    HeaderKept(m4, r, n, next, addr, rest, false);
    if hasNext {
      LE32Kept(m5, r, p + PREV_AT);
    }
  }

  /** The split stores for chunk `k` of a heap at `va` cut for `req` bytes. */
  ghost predicate Taken(m: seq<u8>, r: seq<u8>, va: u32, cs: seq<Chunk>, k: nat, req: u32)
    requires k < |cs|
  {
    TakeWritten(m, r, Offset(cs, k), NewAt(cs, k, req), Offset(cs, k + 1), k + 1 < |cs|, req,
                Wrap32(cs[k].size as int - req as int - H), ChunkAddr(va, cs, k), NextLink(va, cs, k),
                Wrap32(va as int + NewAt(cs, k, req)))
  }

  /** The split stores, with their addresses and values worked out, are those of chunk `k`. */
  lemma {:induction false} TakenAt(m: seq<u8>, r: seq<u8>, va: u32, cs: seq<Chunk>, k: nat, req: u32,
                o: nat, n: nat, rest: u32, addr: u32, next: u32, newAddr: u32)
    requires k < |cs| && TakeWritten(m, r, o, n, Offset(cs, k + 1), k + 1 < |cs|, req, rest, addr, next, newAddr)
    requires o == Offset(cs, k) && n == NewAt(cs, k, req) && rest == Wrap32(cs[k].size as int - req as int - H)
    requires addr == ChunkAddr(va, cs, k) && next == NextLink(va, cs, k) && newAddr == Wrap32(va as int + NewAt(cs, k, req))
    ensures Taken(m, r, va, cs, k, req)
  {
  }

  /**
   * Where allocate's split of chunk `k` stores: both headers fit in the
   * chunk, the next chunk's header lies past the new one, and the taken
   * chunk's `next` link is NULL exactly when it is the last chunk.
   */
  lemma {:induction false} SplitReady(va: u32, cs: seq<Chunk>, k: nat, req: u32)
    requires 0 < va && va as int + Total(cs) <= TWO_32
    requires k < |cs| && cs[k].size as int >= req as int + H + 1
    ensures ChunkAddr(va, cs, k) as int == va as int + Offset(cs, k)
    ensures Offset(cs, k) + H + req as int + H <= Total(cs)
    ensures k + 1 < |cs| ==> Offset(cs, k) + H + req as int + H <= Offset(cs, k + 1) && Offset(cs, k + 1) + H <= Total(cs)
    ensures NextLink(va, cs, k) != 0 <==> k + 1 < |cs|
    ensures k + 1 < |cs| ==> NextLink(va, cs, k) as int == va as int + Offset(cs, k + 1)
  {
    NextInside(cs, k);
    LinksNull(va, cs, k);
    if k + 1 < |cs| {
      LinksNull(va, cs, k + 1);
    }
  }

  /** A heap of one chunk whose header at offset 0 has NULL links holds that chunk's header. */
  lemma {:induction false} OneHeader(m: seq<u8>, va: u32, c: Chunk)
    requires HeaderIs(m, 0, 0, 0, c.size, c.used)
    ensures Headers(m, va, [c])
  {
  }

  /**
   * `r` is the heap bytes `m` after allocate: unchanged when no chunk fits;
   * otherwise the first fit is split as Taken says when it has at least
   * `req + H + 1` bytes (in uint32_t arithmetic), and only its flag is set
   * when it is used whole.
   */
  ghost predicate AllocWritten(m: seq<u8>, r: seq<u8>, va: u32, cs: seq<Chunk>, req: u32)
    requires |m| == Total(cs)
  {
    match FirstFit(cs, req, 0)
    case None => r == m
    case Some(k) =>
      ChunkInside(cs, k);
      if cs[k].size as int >= Wrap32(req as int + H + 1) as int then Taken(m, r, va, cs, k, req)
      else r == m[Offset(cs, k) + ALLOCATED_AT := Flag(true)]
  }

  /** Where the chunks of a split list lie: as before up to `k`, the new one after the taken one's `req` bytes, the rest one place on. */
  lemma {:induction false} SplitOffsetAt(cs: seq<Chunk>, k: nat, req: u32, i: nat)
    requires k < |cs| && cs[k].size as int + H < TWO_32 && cs[k].size as int >= req as int + H + 1 && i <= |cs| + 1
    ensures var cs' := Split(cs, k, req);
            |cs'| == |cs| + 1
            && (i <= k ==> Offset(cs', i) == Offset(cs, i))
            && (i == k + 1 ==> Offset(cs', i) == NewAt(cs, k, req))
            && (k + 1 < i ==> Offset(cs', i) == Offset(cs, i - 1))
  {
    var cs' := Split(cs, k, req);
    SplitShape(cs, k, req);
    SplitSlices(cs, k, req);
    var a := Chunk(req, true);
    var b := Chunk(Wrap32(cs[k].size as int - req as int - H), false);
    if i <= k {
      SamePrefix(cs, cs', k, i);
    } else if i == k + 1 {
      SamePrefix(cs, cs', k, k);
      OffsetStep(cs', k);
    } else {
      assert cs' == (cs[..k] + [a, b]) + cs[k + 1..];
      assert cs == (cs[..k] + [cs[k]]) + cs[k + 1..];
      TotalTwo(a, b);
      TotalOne(cs[k]);
      TotalConcat(cs[..k], [cs[k]]);
      TotalConcat(cs[..k], [a, b]);
      SameTotalShift(cs[..k] + [cs[k]], cs[..k] + [a, b], cs[k + 1..], i - k - 2);
    }
  }

  /** A header before the split chunk is untouched by the split. */
  lemma {:induction false} SplitBefore(m: seq<u8>, r: seq<u8>, va: u32, cs: seq<Chunk>, k: nat, req: u32, cs': seq<Chunk>, j: nat)
    requires k < |cs| && |m| == Total(cs) && cs[k].size as int + H < TWO_32 && cs[k].size as int >= req as int + H + 1
    requires j < k && HeaderAt(m, va, cs, j) && Taken(m, r, va, cs, k, req)
    requires cs' == Split(cs, k, req) && |cs'| == |cs| + 1
    ensures HeaderAt(r, va, cs', j)
  {
    SplitSlices(cs, k, req);
    SplitOffsetAt(cs, k, req, j);
    SplitOffsetAt(cs, k, req, j + 1);
    if j > 0 {
      SplitOffsetAt(cs, k, req, j - 1);
    }
    assert cs'[j] == cs[j] by { assert cs'[..k][j] == cs[..k][j]; }
    OffsetsApart(cs, j, k);
    Unreached(m, r, va, cs, cs', j, j);
  }

  /** After the split, chunk `k` sits where it did, holds `req` bytes in use and is followed by the new chunk. */
  lemma {:induction false} SplitLinks(va: u32, cs: seq<Chunk>, k: nat, req: u32)
    requires k < |cs| && cs[k].size as int + H < TWO_32 && cs[k].size as int >= req as int + H + 1
    ensures var cs' := Split(cs, k, req);
            |cs'| == |cs| + 1 && cs'[k] == Chunk(req, true) && Offset(cs', k) == Offset(cs, k)
            && NextLink(va, cs', k) == Wrap32(va as int + NewAt(cs, k, req))
            && PrevLink(va, cs', k) == PrevLink(va, cs, k)
  {
    SplitSlices(cs, k, req);
    SplitOffsetAt(cs, k, req, k);
    SplitOffsetAt(cs, k, req, k + 1);
    if k > 0 {
      SplitOffsetAt(cs, k, req, k - 1);
    }
  }

  /** The split stores leave a taken header at `o` whose `prev` is the one it had. */
  lemma {:induction false} TakenHeader(m: seq<u8>, r: seq<u8>, o: nat, n: nat, p: nat, hasNext: bool,
                req: u32, rest: u32, addr: u32, next: u32, newAddr: u32, prev: u32)
    requires TakeWritten(m, r, o, n, p, hasNext, req, rest, addr, next, newAddr)
    requires o + H <= |m| && LE32(m, o + PREV_AT) == prev
    ensures HeaderIs(r, o, newAddr, prev, req, true)
  {
    LE32Kept(m, r, o + PREV_AT);
  }

  /** The split chunk is taken: `req` bytes, used, linked to the new chunk. */
  lemma {:induction false} SplitTaken(m: seq<u8>, r: seq<u8>, va: u32, cs: seq<Chunk>, k: nat, req: u32, cs': seq<Chunk>)
    requires k < |cs| && |m| == Total(cs) && cs[k].size as int + H < TWO_32 && cs[k].size as int >= req as int + H + 1
    requires HeaderAt(m, va, cs, k) && Taken(m, r, va, cs, k, req)
    requires cs' == Split(cs, k, req) && |cs'| == |cs| + 1
    ensures HeaderAt(r, va, cs', k)
  {
    SplitLinks(va, cs, k, req);
    TakenHeader(m, r, Offset(cs, k), NewAt(cs, k, req), Offset(cs, k + 1), k + 1 < |cs|, req,
                Wrap32(cs[k].size as int - req as int - H), ChunkAddr(va, cs, k), NextLink(va, cs, k),
                Wrap32(va as int + NewAt(cs, k, req)), PrevLink(va, cs, k));
  }

  /** The new chunk holds the rest, free, between the taken chunk and the old next one. */
  lemma {:induction false} SplitNew(m: seq<u8>, r: seq<u8>, va: u32, cs: seq<Chunk>, k: nat, req: u32, cs': seq<Chunk>)
    requires k < |cs| && |m| == Total(cs) && cs[k].size as int + H < TWO_32 && cs[k].size as int >= req as int + H + 1
    requires Taken(m, r, va, cs, k, req)
    requires cs' == Split(cs, k, req) && |cs'| == |cs| + 1
    ensures HeaderAt(r, va, cs', k + 1)
  {
    NewLinks(va, cs, k, req);
  }

  /** The new chunk holds the rest, free, at NewAt, between the taken chunk and the old next one. */
  lemma {:induction false} NewLinks(va: u32, cs: seq<Chunk>, k: nat, req: u32)
    requires k < |cs| && cs[k].size as int + H < TWO_32 && cs[k].size as int >= req as int + H + 1
    ensures var cs' := Split(cs, k, req);
            |cs'| == |cs| + 1 && cs'[k + 1] == Chunk(Wrap32(cs[k].size as int - req as int - H), false)
            && Offset(cs', k + 1) == NewAt(cs, k, req)
            && NextLink(va, cs', k + 1) == NextLink(va, cs, k)
            && PrevLink(va, cs', k + 1) == ChunkAddr(va, cs, k)
  {
    SplitSlices(cs, k, req);
    SplitOffsetAt(cs, k, req, k);
    SplitOffsetAt(cs, k, req, k + 1);
    SplitOffsetAt(cs, k, req, k + 2);
  }

  /** The chunk after the split one, one index on, now points back to the new chunk. */
  lemma {:induction false} SplitFollowing(m: seq<u8>, r: seq<u8>, va: u32, cs: seq<Chunk>, k: nat, req: u32, cs': seq<Chunk>)
    requires k + 1 < |cs| && |cs'| == |cs| + 1 && |m| == Total(cs)
    requires HeaderAt(m, va, cs, k + 1) && Taken(m, r, va, cs, k, req) && cs'[k + 2] == cs[k + 1]
    requires Offset(cs', k + 1) == NewAt(cs, k, req) && Offset(cs', k + 2) == Offset(cs, k + 1)
    requires k + 3 < |cs'| ==> Offset(cs', k + 3) == Offset(cs, k + 2)
    ensures HeaderAt(r, va, cs', k + 2)
  {
    var p := Offset(cs, k + 1);
    NextInside(cs, k);
    LE32Kept(m, r, p + NEXT_AT);
    LE32Kept(m, r, p + SIZE_AT);
  }

  /** Past the new chunk, chunk `j` of the split list is chunk `j - 1` of the old one, at the same place. */
  lemma {:induction false} SplitPlaces(cs: seq<Chunk>, k: nat, req: u32, j: nat)
    requires k < |cs| && cs[k].size as int + H < TWO_32 && cs[k].size as int >= req as int + H + 1 && k + 2 <= j <= |cs|
    ensures var cs' := Split(cs, k, req);
            |cs'| == |cs| + 1 && cs'[j] == cs[j - 1]
            && (j == k + 2 ==> Offset(cs', j - 1) == NewAt(cs, k, req))
            && (j > k + 2 ==> Offset(cs', j - 1) == Offset(cs, j - 2))
            && Offset(cs', j) == Offset(cs, j - 1) && Offset(cs', j + 1) == Offset(cs, j)
  {
    var cs' := Split(cs, k, req);
    SplitSlices(cs, k, req);
    assert cs'[k + 2..][j - k - 2] == cs[k + 1..][j - k - 2];
    SplitOffsetAt(cs, k, req, j - 1);
    SplitOffsetAt(cs, k, req, j);
    SplitOffsetAt(cs, k, req, j + 1);
  }

  /** Headers two or more places past the split chunk, which keep their places one index on, are untouched. */
  lemma {:induction false} SplitBeyond(m: seq<u8>, r: seq<u8>, va: u32, cs: seq<Chunk>, k: nat, req: u32, cs': seq<Chunk>, j: nat)
    requires k + 2 < j <= |cs| && |cs'| == |cs| + 1 && |m| == Total(cs)
    requires HeaderAt(m, va, cs, j - 1) && Taken(m, r, va, cs, k, req) && cs'[j] == cs[j - 1]
    requires Offset(cs', j - 1) == Offset(cs, j - 2) && Offset(cs', j) == Offset(cs, j - 1)
    requires j + 1 < |cs'| ==> Offset(cs', j + 1) == Offset(cs, j)
    ensures HeaderAt(r, va, cs', j)
  {
    NextInside(cs, k);
    OffsetsApart(cs, k + 1, j - 1);
    Unreached(m, r, va, cs, cs', j - 1, j);
  }

  /** After the split stores, every header is in step with the split list. */
  lemma {:induction false} SplitHeaders(m: seq<u8>, r: seq<u8>, va: u32, cs: seq<Chunk>, k: nat, req: u32)
    requires k < |cs| && |m| == Total(cs) && cs[k].size as int + H < TWO_32 && cs[k].size as int >= req as int + H + 1
    requires Headers(m, va, cs) && Taken(m, r, va, cs, k, req)
    ensures Headers(r, va, Split(cs, k, req))
  {
    var cs' := Split(cs, k, req);
    SplitSlices(cs, k, req);
    forall j | 0 <= j < |cs'| ensures HeaderAt(r, va, cs', j) {
      if j < k {
        assert HeaderAt(m, va, cs, j);
        SplitBefore(m, r, va, cs, k, req, cs', j);
      } else if j == k {
        assert HeaderAt(m, va, cs, k);
        SplitTaken(m, r, va, cs, k, req, cs');
      } else if j == k + 1 {
        SplitNew(m, r, va, cs, k, req, cs');
      } else if j == k + 2 {
        assert HeaderAt(m, va, cs, k + 1);
        SplitPlaces(cs, k, req, j);
        SplitFollowing(m, r, va, cs, k, req, cs');
      } else {
        assert HeaderAt(m, va, cs, j - 1);
        SplitPlaces(cs, k, req, j);
        SplitBeyond(m, r, va, cs, k, req, cs', j);
      }
    }
  }

  /** allocate's stores keep every header in step with the list allocate leaves. */
  lemma {:induction false} AllocHeaders(m: seq<u8>, r: seq<u8>, va: u32, cs: seq<Chunk>, req: u32)
    requires |m| == Total(cs) < TWO_32 && Headers(m, va, cs)
    requires AllocateSpec(cs, req).Some? && AllocWritten(m, r, va, cs, req)
    ensures Headers(r, va, AllocateSpec(cs, req).value.0)
  {
    var k := FirstFit(cs, req, 0).value;
    ChunkInside(cs, k);
    SplitShape(cs, k, req);
    if cs[k].size as int >= req as int + H + 1 {
      SplitHeaders(m, r, va, cs, k, req);
    } else {
      MarkHeaders(m, va, cs, k, true);
    }
  }

  // --------------------------------------------------------- kfree's stores

  /**
   * `r` is `m` after the stores of one merge in kfree: the surviving header
   * at `o` gets `next` = `next` and size `size`, the header at `q` after the
   * absorbed chunk, when `hasNext`, gets `prev` = `addr`, and every other
   * byte is as it was.
   */
  ghost predicate MergeWritten(m: seq<u8>, r: seq<u8>, o: nat, q: nat, hasNext: bool, next: u32, size: u32, addr: u32) {
    |r| == |m| && o + H <= |m| && (hasNext ==> o + H <= q && q + H <= |m|)
    && LE32(r, o + NEXT_AT) == next && LE32(r, o + SIZE_AT) == size
    && (hasNext ==> LE32(r, q + PREV_AT) == addr)
    && forall i :: 0 <= i < |m| && !(o <= i < o + PREV_AT) && !(o + SIZE_AT <= i < o + ALLOCATED_AT)
                     && !(hasNext && q + PREV_AT <= i < q + SIZE_AT)
                   ==> r[i] == m[i]
  }

  /**
   * The three stores of a merge leave what MergeWritten says, whichever of
   * `size` and `next` is stored first: kfree stores `next` first when it
   * merges into the previous chunk and `size` first when it absorbs the next.
   */
  lemma {:induction false} MergeSteps(m: seq<u8>, m1: seq<u8>, m2: seq<u8>, r: seq<u8>, o: nat, q: nat, hasNext: bool,
                   next: u32, size: u32, addr: u32, sizeFirst: bool)
    requires o + H <= |m| && (hasNext ==> o + H <= q && q + H <= |m|)
    requires if sizeFirst then Stored32(m, m1, o + SIZE_AT, size) && Stored32(m1, m2, o + NEXT_AT, next)
             else Stored32(m, m1, o + NEXT_AT, next) && Stored32(m1, m2, o + SIZE_AT, size)
    requires if hasNext then Stored32(m2, r, q + PREV_AT, addr) else r == m2
    ensures MergeWritten(m, r, o, q, hasNext, next, size, addr)
  {
    if sizeFirst {
      LE32Kept(m1, m2, o + SIZE_AT);
    } else {
      LE32Kept(m1, m2, o + NEXT_AT);
    }
    if hasNext {
      LE32Kept(m2, r, o + NEXT_AT);
      LE32Kept(m2, r, o + SIZE_AT);
    }
  }

  /** The stores that merge chunk `i + 1` into chunk `i` of a heap at `va`. */
  ghost predicate Merged(m: seq<u8>, r: seq<u8>, va: u32, c: seq<Chunk>, i: nat)
    requires i + 1 < |c|
  {
    MergeWritten(m, r, Offset(c, i), Offset(c, i + 2), i + 2 < |c|, NextLink(va, c, i + 1),
                 Wrap32(c[i].size as int + c[i + 1].size as int + H), ChunkAddr(va, c, i))
  }

  /** Merge stores whose offsets and values are those of chunk `i` are `Merged`. */
  lemma {:induction false} MergedFrom(m: seq<u8>, r: seq<u8>, va: u32, c: seq<Chunk>, i: nat,
                                      o: nat, q: nat, hasNext: bool, next: u32, size: u32, addr: u32)
    requires i + 1 < |c| && MergeWritten(m, r, o, q, hasNext, next, size, addr)
    requires o == Offset(c, i) && q == Offset(c, i + 2) && hasNext == (i + 2 < |c|) && next == NextLink(va, c, i + 1)
    requires size == Wrap32(c[i].size as int + c[i + 1].size as int + H) && addr == ChunkAddr(va, c, i)
    ensures Merged(m, r, va, c, i)
  {
  }

  /** Where the chunks of a merged list lie: as before up to the merged one, then one index earlier. */
  lemma {:induction false} MergeOffsetAt(c: seq<Chunk>, i: nat, x: nat)
    requires i + 1 < |c| && c[i].size as int + c[i + 1].size as int + H < TWO_32 && x < |c|
    ensures x <= i ==> Offset(Merge(c, i), x) == Offset(c, x)
    ensures i < x ==> Offset(Merge(c, i), x) == Offset(c, x + 1)
  {
    var c' := Merge(c, i);
    var mc := c'[i];
    MergeTotal(c, i);
    if x <= i {
      SamePrefix(c, c', i, x);
    } else {
      assert c == (c[..i] + [c[i], c[i + 1]]) + c[i + 2..];
      assert c' == (c[..i] + [mc]) + c[i + 2..];
      TotalTwo(c[i], c[i + 1]);
      TotalOne(mc);
      TotalConcat(c[..i], [c[i], c[i + 1]]);
      TotalConcat(c[..i], [mc]);
      SameTotalShift(c[..i] + [c[i], c[i + 1]], c[..i] + [mc], c[i + 2..], x - i - 1);
    }
  }

  /** A header before the merged chunk is untouched by the merge. */
  lemma {:induction false} MergeBefore(m: seq<u8>, r: seq<u8>, va: u32, c: seq<Chunk>, i: nat, c': seq<Chunk>, j: nat)
    requires i + 1 < |c| && |c'| == |c| - 1 && |m| == Total(c) && j < i
    requires HeaderAt(m, va, c, j) && Merged(m, r, va, c, i) && c'[j] == c[j]
    requires Offset(c', j) == Offset(c, j) && Offset(c', j + 1) == Offset(c, j + 1)
    requires j > 0 ==> Offset(c', j - 1) == Offset(c, j - 1)
    ensures HeaderAt(r, va, c', j)
  {
    OffsetsApart(c, j, i);
    Unreached(m, r, va, c, c', j, j);
  }

  /** The surviving header of a merge keeps its `prev` and its flag and holds the new `next` and size. */
  lemma {:induction false} MergedHeader(m: seq<u8>, r: seq<u8>, o: nat, q: nat, hasNext: bool,
                                        next: u32, size: u32, addr: u32, prev: u32, used: bool)
    requires MergeWritten(m, r, o, q, hasNext, next, size, addr)
    requires LE32(m, o + PREV_AT) == prev && m[o + ALLOCATED_AT] == Flag(used)
    ensures HeaderIs(r, o, next, prev, size, used)
  {
    LE32Kept(m, r, o + PREV_AT);
  }

  /** The surviving chunk spans both, keeps its flag and its `prev`, and links to the chunk after the absorbed one. */
  lemma {:induction false} MergeInto(m: seq<u8>, r: seq<u8>, va: u32, c: seq<Chunk>, i: nat, c': seq<Chunk>)
    requires i + 1 < |c| && |c'| == |c| - 1 && |m| == Total(c)
    requires HeaderAt(m, va, c, i) && Merged(m, r, va, c, i)
    requires c'[i] == Chunk(Wrap32(c[i].size as int + c[i + 1].size as int + H), c[i].used)
    requires Offset(c', i) == Offset(c, i) && (i + 1 < |c'| ==> Offset(c', i + 1) == Offset(c, i + 2))
    requires i > 0 ==> Offset(c', i - 1) == Offset(c, i - 1)
    ensures HeaderAt(r, va, c', i)
  {
    MergedHeader(m, r, Offset(c, i), Offset(c, i + 2), i + 2 < |c|, NextLink(va, c, i + 1),
                 Wrap32(c[i].size as int + c[i + 1].size as int + H), ChunkAddr(va, c, i), PrevLink(va, c, i), c[i].used);
    NextAlike(va, c, c', i + 1, i);
    PrevAlike(va, c, c', i, i);
  }

  /** The chunk after the absorbed one, one index earlier now, points back to the surviving chunk. */
  lemma {:induction false} MergeFollowing(m: seq<u8>, r: seq<u8>, va: u32, c: seq<Chunk>, i: nat, c': seq<Chunk>)
    requires i + 2 < |c| && |c'| == |c| - 1 && |m| == Total(c)
    requires HeaderAt(m, va, c, i + 2) && Merged(m, r, va, c, i) && c'[i + 1] == c[i + 2]
    requires Offset(c', i) == Offset(c, i) && Offset(c', i + 1) == Offset(c, i + 2)
    requires i + 2 < |c'| ==> Offset(c', i + 2) == Offset(c, i + 3)
    ensures HeaderAt(r, va, c', i + 1)
  {
    var q := Offset(c, i + 2);
    LE32Kept(m, r, q + NEXT_AT);
    LE32Kept(m, r, q + SIZE_AT);
  }

  /** Headers two or more places past the merged chunk, one index earlier now, are untouched. */
  lemma {:induction false} MergeBeyond(m: seq<u8>, r: seq<u8>, va: u32, c: seq<Chunk>, i: nat, c': seq<Chunk>, j: nat)
    requires i + 1 < j < |c'| && |c'| == |c| - 1 && |m| == Total(c)
    requires HeaderAt(m, va, c, j + 1) && Merged(m, r, va, c, i) && c'[j] == c[j + 1]
    requires Offset(c', j - 1) == Offset(c, j) && Offset(c', j) == Offset(c, j + 1)
    requires j + 1 < |c'| ==> Offset(c', j + 1) == Offset(c, j + 2)
    ensures HeaderAt(r, va, c', j)
  {
    OffsetsApart(c, i + 2, j + 1);
    Unreached(m, r, va, c, c', j + 1, j);
  }

  /** A header before the merged chunk is in step with the merged list. */
  lemma {:induction false} MergeHeaderBefore(m: seq<u8>, r: seq<u8>, va: u32, c: seq<Chunk>, i: nat, j: nat)
    requires i + 1 < |c| && |m| == Total(c) < TWO_32 && j < i
    requires HeaderAt(m, va, c, j) && Merged(m, r, va, c, i)
    ensures HeaderAt(r, va, Merge(c, i), j)
  {
    NeighboursFit(c, i);
    MergeIndex(c, i);
    MergeOffsetAt(c, i, j);
    MergeOffsetAt(c, i, j + 1);
    if j > 0 {
      MergeOffsetAt(c, i, j - 1);
    }
    MergeBefore(m, r, va, c, i, Merge(c, i), j);
  }

  /** The merged chunk's header is in step with the merged list. */
  lemma {:induction false} MergeHeaderInto(m: seq<u8>, r: seq<u8>, va: u32, c: seq<Chunk>, i: nat)
    requires i + 1 < |c| && |m| == Total(c) < TWO_32
    requires HeaderAt(m, va, c, i) && Merged(m, r, va, c, i)
    ensures HeaderAt(r, va, Merge(c, i), i)
  {
    var c' := Merge(c, i);
    NeighboursFit(c, i);
    MergeIndex(c, i);
    MergeOffsetAt(c, i, i);
    if i + 1 < |c'| {
      MergeOffsetAt(c, i, i + 1);
    }
    if i > 0 {
      MergeOffsetAt(c, i, i - 1);
    }
    MergeInto(m, r, va, c, i, c');
  }

  /** The header after the absorbed chunk is in step with the merged list. */
  lemma {:induction false} MergeHeaderFollowing(m: seq<u8>, r: seq<u8>, va: u32, c: seq<Chunk>, i: nat)
    requires i + 2 < |c| && |m| == Total(c) < TWO_32
    requires HeaderAt(m, va, c, i + 2) && Merged(m, r, va, c, i)
    ensures HeaderAt(r, va, Merge(c, i), i + 1)
  {
    var c' := Merge(c, i);
    NeighboursFit(c, i);
    MergeIndex(c, i);
    MergeOffsetAt(c, i, i);
    MergeOffsetAt(c, i, i + 1);
    if i + 2 < |c'| {
      MergeOffsetAt(c, i, i + 2);
    }
    MergeFollowing(m, r, va, c, i, c');
  }

  /** A header two or more places past the merged chunk is in step with the merged list. */
  lemma {:induction false} MergeHeaderBeyond(m: seq<u8>, r: seq<u8>, va: u32, c: seq<Chunk>, i: nat, j: nat)
    requires i + 1 < j < |c| - 1 && |m| == Total(c) < TWO_32
    requires HeaderAt(m, va, c, j + 1) && Merged(m, r, va, c, i)
    ensures HeaderAt(r, va, Merge(c, i), j)
  {
    var c' := Merge(c, i);
    NeighboursFit(c, i);
    MergeIndex(c, i);
    MergeOffsetAt(c, i, j - 1);
    MergeOffsetAt(c, i, j);
    if j + 1 < |c'| {
      MergeOffsetAt(c, i, j + 1);
    }
    MergeBeyond(m, r, va, c, i, c', j);
  }

  /** After the stores of a merge, every header is in step with the merged list. */
  lemma {:induction false} MergeHeaders(m: seq<u8>, r: seq<u8>, va: u32, c: seq<Chunk>, i: nat)
    requires i + 1 < |c| && |m| == Total(c) < TWO_32 && Headers(m, va, c) && Merged(m, r, va, c, i)
    ensures Headers(r, va, Merge(c, i))
  {
    forall j | 0 <= j < |c| - 1 ensures HeaderAt(r, va, Merge(c, i), j) {
      if j < i {
        assert HeaderAt(m, va, c, j);
        MergeHeaderBefore(m, r, va, c, i, j);
      } else if j == i {
        assert HeaderAt(m, va, c, i);
        MergeHeaderInto(m, r, va, c, i);
      } else if j == i + 1 {
        assert HeaderAt(m, va, c, i + 2);
        MergeHeaderFollowing(m, r, va, c, i);
      } else {
        assert HeaderAt(m, va, c, j + 1);
        MergeHeaderBeyond(m, r, va, c, i, j);
      }
    }
  }

  /**
   * Where kfree's merge of chunk `i` into chunk `i - 1` stores: the two
   * headers lie one after the other inside the heap, the chunk after them
   * further on, and chunk `i`'s `next` link is NULL exactly when it is the
   * last chunk.
   */
  lemma {:induction false} JoinReady(va: u32, c: seq<Chunk>, i: nat)
    requires 0 < i < |c| && 0 < va && va as int + Total(c) <= TWO_32
    ensures ChunkAddr(va, c, i) as int == va as int + Offset(c, i) && ChunkAddr(va, c, i - 1) as int == va as int + Offset(c, i - 1)
    ensures Offset(c, i - 1) + H <= Offset(c, i) && Offset(c, i) + H <= Total(c)
    ensures i + 1 < |c| ==> Offset(c, i) + H <= Offset(c, i + 1) && Offset(c, i + 1) + H <= Total(c)
    ensures NextLink(va, c, i) != 0 <==> i + 1 < |c|
    ensures i + 1 < |c| ==> NextLink(va, c, i) as int == va as int + Offset(c, i + 1)
  {
    NextInside(c, i - 1);
    NextInside(c, i);
    LinksNull(va, c, i);
    LinksNull(va, c, i - 1);
    if i + 1 < |c| {
      LinksNull(va, c, i + 1);
    }
  }

  /** The stores of kfree's merge into the previous chunk, read off the two headers at `po` and `o`, are those of `Merged`. */
  lemma {:induction false} MergedAfterJoin(m: seq<u8>, r: seq<u8>, va: u32, c: seq<Chunk>, i: nat,
                                           po: nat, o: nat, prev: u32, q: nat, hasNext: bool)
    requires 0 < i < |c| && HeaderAt(m, va, c, i) && HeaderAt(m, va, c, i - 1)
    requires po == Offset(c, i - 1) && o == Offset(c, i) && prev == ChunkAddr(va, c, i - 1)
    requires q == Offset(c, i + 1) && hasNext == (i + 1 < |c|)
    requires MergeWritten(m, r, po, q, hasNext, LE32(m, o + NEXT_AT),
                          Wrap32(LE32(m, po + SIZE_AT) as int + LE32(m, o + SIZE_AT) as int + H), prev)
    ensures Merged(m, r, va, c, i - 1)
  {
    assert LE32(m, o + NEXT_AT) == NextLink(va, c, i - 1 + 1) && Offset(c, i - 1 + 2) == q && hasNext == (i - 1 + 2 < |c|);
    assert LE32(m, po + SIZE_AT) == c[i - 1].size && LE32(m, o + SIZE_AT) == c[i - 1 + 1].size;
    MergedFrom(m, r, va, c, i - 1, po, q, hasNext, LE32(m, o + NEXT_AT),
               Wrap32(LE32(m, po + SIZE_AT) as int + LE32(m, o + SIZE_AT) as int + H), prev);
  }

  /**
   * Where kfree's merge of chunk `j + 1` into chunk `j` stores: the two
   * headers lie one after the other inside the heap, the chunk after them
   * further on, and chunk `j + 1`'s `next` link is NULL exactly when it is
   * the last chunk.
   */
  lemma {:induction false} AbsorbReady(va: u32, c: seq<Chunk>, j: nat)
    requires j + 1 < |c| && 0 < va && va as int + Total(c) <= TWO_32
    ensures ChunkAddr(va, c, j) as int == va as int + Offset(c, j) && ChunkAddr(va, c, j + 1) as int == va as int + Offset(c, j + 1)
    ensures Offset(c, j) + H <= Offset(c, j + 1) && Offset(c, j + 1) + H <= Total(c)
    ensures j + 2 < |c| ==> Offset(c, j + 1) + H <= Offset(c, j + 2) && Offset(c, j + 2) + H <= Total(c)
    ensures NextLink(va, c, j + 1) != 0 <==> j + 2 < |c|
    ensures j + 2 < |c| ==> NextLink(va, c, j + 1) as int == va as int + Offset(c, j + 2)
  {
    NextInside(c, j);
    NextInside(c, j + 1);
    LinksNull(va, c, j);
    LinksNull(va, c, j + 1);
    if j + 2 < |c| {
      LinksNull(va, c, j + 2);
    }
  }

  /** The stores of kfree's merge of the next chunk, read off the two headers at `o` and `no`, are those of `Merged`. */
  lemma {:induction false} MergedAfterAbsorb(m: seq<u8>, r: seq<u8>, va: u32, c: seq<Chunk>, j: nat,
                                             o: nat, no: nat, chunk: u32, q: nat, hasNext: bool)
    requires j + 1 < |c| && HeaderAt(m, va, c, j) && HeaderAt(m, va, c, j + 1)
    requires o == Offset(c, j) && no == Offset(c, j + 1) && chunk == ChunkAddr(va, c, j)
    requires q == Offset(c, j + 2) && hasNext == (j + 2 < |c|)
    requires MergeWritten(m, r, o, q, hasNext, LE32(m, no + NEXT_AT),
                          Wrap32(LE32(m, o + SIZE_AT) as int + LE32(m, no + SIZE_AT) as int + H), chunk)
    ensures Merged(m, r, va, c, j)
  {
    MergedFrom(m, r, va, c, j, o, q, hasNext, LE32(m, no + NEXT_AT),
               Wrap32(LE32(m, o + SIZE_AT) as int + LE32(m, no + SIZE_AT) as int + H), chunk);
  }

  /** kfree's stores for a merge into the previous chunk, when that one is free; none otherwise. */
  ghost predicate PrevStores(m: seq<u8>, r: seq<u8>, va: u32, c: seq<Chunk>, k: nat)
    requires k < |c|
  {
    if k > 0 && !c[k - 1].used then Merged(m, r, va, c, k - 1) else r == m
  }

  /** kfree's stores for absorbing the next chunk, when that one is free; none otherwise. */
  ghost predicate NextStores(m: seq<u8>, r: seq<u8>, va: u32, c: seq<Chunk>, j: nat)
    requires j < |c|
  {
    if j + 1 < |c| && !c[j + 1].used then Merged(m, r, va, c, j) else r == m
  }

  /**
   * `r` is the heap bytes `m` after kfree on chunk `k`: its flag cleared,
   * then the stores of a merge into a free predecessor, then those of
   * absorbing a free successor, each as the chunk list then stands.
   */
  ghost predicate FreeWritten(m: seq<u8>, r: seq<u8>, va: u32, cs: seq<Chunk>, k: nat)
    requires k < |cs| && |m| == Total(cs)
  {
    ChunkInside(cs, k);
    var c1 := cs[k := Chunk(cs[k].size, false)];
    var (c2, j) := CoalescePrev(c1, k);
    exists m2 :: PrevStores(m[Offset(cs, k) + ALLOCATED_AT := Flag(false)], m2, va, c1, k)
                 && NextStores(m2, r, va, c2, j)
  }

  /** Merging into a free predecessor keeps the headers in step and the total size. */
  lemma {:induction false} PrevHeaders(m: seq<u8>, r: seq<u8>, va: u32, c: seq<Chunk>, k: nat)
    requires k < |c| && |m| == Total(c) < TWO_32 && Headers(m, va, c) && PrevStores(m, r, va, c, k)
    ensures Headers(r, va, CoalescePrev(c, k).0) && Total(CoalescePrev(c, k).0) == Total(c)
  {
    if k > 0 && !c[k - 1].used {
      NeighboursFit(c, k - 1);
      MergeTotal(c, k - 1);
      MergeHeaders(m, r, va, c, k - 1);
    }
  }

  /** Absorbing a free successor keeps the headers in step. */
  lemma {:induction false} NextHeaders(m: seq<u8>, r: seq<u8>, va: u32, c: seq<Chunk>, j: nat)
    requires j < |c| && |m| == Total(c) < TWO_32 && Headers(m, va, c) && NextStores(m, r, va, c, j)
    ensures Headers(r, va, CoalesceNext(c, j))
  {
    if j + 1 < |c| && !c[j + 1].used {
      MergeHeaders(m, r, va, c, j);
    }
  }

  /** Clearing chunk `k`'s flag keeps the headers in step with the list where it is free, of the same total size. */
  lemma {:induction false} ClearHeaders(m: seq<u8>, va: u32, cs: seq<Chunk>, k: nat)
    requires k < |cs| && |m| == Total(cs) && Headers(m, va, cs)
    ensures Offset(cs, k) + H <= |m|
    ensures Headers(m[Offset(cs, k) + ALLOCATED_AT := Flag(false)], va, cs[k := Chunk(cs[k].size, false)])
    ensures Total(cs[k := Chunk(cs[k].size, false)]) == Total(cs)
  {
    var c1 := cs[k := Chunk(cs[k].size, false)];
    MarkHeaders(m, va, cs, k, false);
    SameSizes(cs, c1, |cs|);
    OffsetEnd(cs);
    OffsetEnd(c1);
  }

  /** kfree's stores keep every header in step with the list kfree leaves. */
  lemma {:induction false} FreeHeaders(m: seq<u8>, r: seq<u8>, va: u32, cs: seq<Chunk>, k: nat)
    requires k < |cs| && |m| == Total(cs) < TWO_32 && Headers(m, va, cs) && FreeWritten(m, r, va, cs, k)
    ensures Headers(r, va, FreeSpec(cs, k).0)
  {
    ClearHeaders(m, va, cs, k);
    var c1 := cs[k := Chunk(cs[k].size, false)];
    var m1 := m[Offset(cs, k) + ALLOCATED_AT := Flag(false)];
    var (c2, j) := CoalescePrev(c1, k);
    var m2 :| PrevStores(m1, m2, va, c1, k) && NextStores(m2, r, va, c2, j);
    PrevHeaders(m1, m2, va, c1, k);
    NextHeaders(m2, r, va, c2, j);
  }

  /**
   * What kfree reads through chunk `i`'s `prev` link: NULL exactly for the
   * first chunk, otherwise the address of the previous chunk's header,
   * whose flag byte tells whether that chunk is free.
   */
  lemma {:induction false} PrevRead(m: seq<u8>, va: u32, c: seq<Chunk>, i: nat)
    requires i < |c| && |m| == Total(c) < TWO_32 && 0 < va && va as int + Total(c) <= TWO_32
    requires Headers(m, va, c)
    ensures ChunkAddr(va, c, i) as int == va as int + Offset(c, i) && Offset(c, i) + H <= |m|
    ensures HeaderAt(m, va, c, i)
    ensures var prev := LE32(m, Offset(c, i) + PREV_AT);
            (prev != 0 <==> i > 0)
            && (i > 0 ==> prev == ChunkAddr(va, c, i - 1) && prev as int == va as int + Offset(c, i - 1)
                          && HeaderAt(m, va, c, i - 1)
                          && (m[Offset(c, i - 1) + ALLOCATED_AT] == Flag(false) <==> !c[i - 1].used))
  {
    assert HeaderAt(m, va, c, i);
    LinksNull(va, c, i);
    ChunkInside(c, i);
    if i > 0 {
      assert HeaderAt(m, va, c, i - 1);
      LinksNull(va, c, i - 1);
    }
  }

  /**
   * What kfree reads through chunk `j`'s `next` link: NULL exactly for the
   * last chunk, otherwise the address of the next chunk's header, whose
   * flag byte tells whether that chunk is free.
   */
  lemma {:induction false} NextRead(m: seq<u8>, va: u32, c: seq<Chunk>, j: nat)
    requires j < |c| && |m| == Total(c) < TWO_32 && 0 < va && va as int + Total(c) <= TWO_32
    requires Headers(m, va, c)
    ensures ChunkAddr(va, c, j) as int == va as int + Offset(c, j) && Offset(c, j) + H <= |m|
    ensures HeaderAt(m, va, c, j)
    ensures var next := LE32(m, Offset(c, j) + NEXT_AT);
            (next != 0 <==> j + 1 < |c|)
            && (j + 1 < |c| ==> next == ChunkAddr(va, c, j + 1) && next as int == va as int + Offset(c, j + 1)
                                && HeaderAt(m, va, c, j + 1)
                                && (m[Offset(c, j + 1) + ALLOCATED_AT] == Flag(false) <==> !c[j + 1].used))
  {
    assert HeaderAt(m, va, c, j);
    LinksNull(va, c, j);
    ChunkInside(c, j);
    if j + 1 < |c| {
      assert HeaderAt(m, va, c, j + 1);
      LinksNull(va, c, j + 1);
      ChunkInside(c, j + 1);
    }
  }

  /** After the stores of merging chunk `i + 1` into chunk `i`, the headers are those of the merged list, which keeps the total and chunk `i`'s address. */
  lemma {:induction false} MergeResult(m: seq<u8>, r: seq<u8>, va: u32, c: seq<Chunk>, i: nat)
    requires i + 1 < |c| && |m| == Total(c) < TWO_32 && Headers(m, va, c) && Merged(m, r, va, c, i)
    ensures Headers(r, va, Merge(c, i)) && Total(Merge(c, i)) == Total(c)
    ensures ChunkAddr(va, Merge(c, i), i) == ChunkAddr(va, c, i)
  {
    NeighboursFit(c, i);
    MergeTotal(c, i);
    MergeHeaders(m, r, va, c, i);
  }

  /** The stores of a merge into a free predecessor are kfree's first merge, and leave the headers of the coalesced list. */
  lemma {:induction false} PrevMerged(m: seq<u8>, r: seq<u8>, va: u32, c: seq<Chunk>, i: nat)
    requires 0 < i < |c| && !c[i - 1].used && |m| == Total(c) < TWO_32 && Headers(m, va, c) && Merged(m, r, va, c, i - 1)
    ensures PrevStores(m, r, va, c, i) && CoalescePrev(c, i).1 == i - 1
    ensures Headers(r, va, CoalescePrev(c, i).0) && Total(CoalescePrev(c, i).0) == Total(c)
    ensures ChunkAddr(va, CoalescePrev(c, i).0, i - 1) == ChunkAddr(va, c, i - 1)
  {
    MergeResult(m, r, va, c, i - 1);
  }

  /** kfree's step back from the payload to the header: `ptr - H` is chunk `k`'s address, even when `ptr` wrapped to 0. */
  lemma {:induction false} HeaderBelow(va: u32, cs: seq<Chunk>, k: nat)
    requires k < |cs| && va as int + Total(cs) <= TWO_32
    ensures Wrap32(DataAddr(va, cs, k) as int - H) as int == va as int + Offset(cs, k)
  {
    ChunkInside(cs, k);
    var x := va as int + Offset(cs, k) + H;
    if x == TWO_32 {
      assert DataAddr(va, cs, k) == 0;
    } else {
      assert DataAddr(va, cs, k) as int == x;
    }
  }

  /** allocate's stores for first fit `k`, split or taken whole, are those AllocWritten describes. */
  lemma {:induction false} AllocWrittenAt(m: seq<u8>, r: seq<u8>, va: u32, cs: seq<Chunk>, req: u32, k: nat)
    requires |m| == Total(cs) && k < |cs| && FirstFit(cs, req, 0) == Some(k) && Offset(cs, k) + H <= |m|
    requires if cs[k].size as int >= Wrap32(req as int + H + 1) as int then Taken(m, r, va, cs, k, req)
             else r == m[Offset(cs, k) + ALLOCATED_AT := Flag(true)]
    ensures AllocWritten(m, r, va, cs, req)
  {
  }

  /** Taking chunk `k` leaves its payload address where it was. */
  lemma {:induction false} SplitDataAddr(va: u32, cs: seq<Chunk>, k: nat, req: u32)
    requires k < |cs| && cs[k].size as int + H < TWO_32 && cs[k].size > req
    ensures k < |Split(cs, k, req)| && DataAddr(va, Split(cs, k, req), k) == DataAddr(va, cs, k)
  {
    SplitTotal(cs, k, req);
    SplitShape(cs, k, req);
    SamePrefix(cs, Split(cs, k, req), k, k);
  }

  /**
   * allocate on the heap bytes `data` of a heap at `va` holding the chunks
   * `cs`: walks the chunks for the first fit, then takes it.
   */
  method AllocateIn(data: array<u8>, va: u32, cs: seq<Chunk>, req: u32) returns (r: Outcome<u32>, cs': seq<Chunk>)
    requires data.Length == Total(cs) < TWO_32 && 0 < va && va as int + Total(cs) <= TWO_32
    requires Headers(data[..], va, cs)
    modifies data
    ensures AllocWritten(old(data[..]), data[..], va, cs, req)
    ensures r.Halt? <==> AllocateSpec(cs, req).None?
    ensures AllocateSpec(cs, req).None? ==> r == Halt && cs' == cs
    ensures AllocateSpec(cs, req).Some? ==>
              cs' == AllocateSpec(cs, req).value.0 && r == Done(DataAddr(va, cs', AllocateSpec(cs, req).value.1))
  {
    var found, addr := FindFit(cs, req, va);
    if found.None? {
      return Halt, cs;
    }
    var k := found.value;
    assert HeaderAt(data[..], va, cs, k);
    r, cs' := TakeChunk(data, va, cs, k, addr, req);
  }

  /**
   * allocate once the search stopped at chunk `k`, whose header is at
   * `addr`: the chunk is split when its size, read from the header, is at
   * least `req + H + 1` in uint32_t arithmetic, and taken whole otherwise.
   */
  method TakeChunk(data: array<u8>, va: u32, cs: seq<Chunk>, k: nat, addr: int, req: u32) returns (r: Outcome<u32>, cs': seq<Chunk>)
    requires data.Length == Total(cs) < TWO_32 && 0 < va && va as int + Total(cs) <= TWO_32
    requires FirstFit(cs, req, 0) == Some(k) && addr == va as int + Offset(cs, k)
    requires HeaderAt(data[..], va, cs, k)
    modifies data
    ensures AllocWritten(old(data[..]), data[..], va, cs, req)
    ensures cs' == Split(cs, k, req) && r == Done(DataAddr(va, cs', k))
  {
    ghost var m0 := data[..];
    var result := Wrap32(addr);
    var o := result as nat - va as nat;
    LinksNull(va, cs, k);
    ChunkInside(cs, k);
    Take(data, va, cs, k, req, result, o);
    AllocWrittenAt(m0, data[..], va, cs, req, k);
    TakeAddr(va, cs, k, req, addr);
    cs' := Split(cs, k, req);
    r := Done(Wrap32(addr + H));
  }

  /** The address allocate returns for chunk `k`, whose header is at `addr`, is the taken chunk's payload. */
  lemma TakeAddr(va: u32, cs: seq<Chunk>, k: nat, req: u32, addr: int)
    requires k < |cs| && cs[k].size as int + H < TWO_32 && cs[k].size > req
    requires addr == va as int + Offset(cs, k)
    ensures k < |Split(cs, k, req)| && Wrap32(addr + H) == DataAddr(va, Split(cs, k, req), k)
  {
    SplitDataAddr(va, cs, k, req);
  }

  /** Allocate's stores into the free chunk `k`, whose header is at `result`: a split, or the used flag alone. */
  method Take(data: array<u8>, va: u32, cs: seq<Chunk>, k: nat, req: u32, result: u32, o: nat)
    requires data.Length == Total(cs) < TWO_32 && 0 < va && va as int + Total(cs) <= TWO_32
    requires k < |cs| && result == ChunkAddr(va, cs, k) && o == Offset(cs, k) && cs[k].size > req
    requires HeaderAt(data[..], va, cs, k) && o + H + cs[k].size as nat <= data.Length
    modifies data
    ensures if cs[k].size as int >= Wrap32(req as int + H + 1) as int then Taken(old(data[..]), data[..], va, cs, k, req)
            else data[..] == old(data[..])[o + ALLOCATED_AT := Flag(true)]
  {
    var whole := LE32(data[..], o + SIZE_AT);
    assert whole == cs[k].size;
    assert req as int + H + 1 < TWO_32;
    Wrap32Small(req as int + H + 1);
    if whole as int >= Wrap32(req as int + H + 1) as int {
      TakeSplit(data, va, cs, k, req, result, o);
    } else {
      data[o + ALLOCATED_AT] := Flag(true);
    }
  }

  /** The split branch of allocate for chunk `k`, whose header is at `result`. */
  method TakeSplit(data: array<u8>, va: u32, cs: seq<Chunk>, k: nat, req: u32, result: u32, o: nat)
    requires data.Length == Total(cs) && 0 < va && va as int + Total(cs) <= TWO_32
    requires k < |cs| && result == ChunkAddr(va, cs, k) && o == Offset(cs, k)
    requires cs[k].size as int >= req as int + H + 1 && Offset(cs, k) + H <= data.Length
    requires LE32(data[..], Offset(cs, k) + NEXT_AT) == NextLink(va, cs, k) && LE32(data[..], Offset(cs, k) + SIZE_AT) == cs[k].size
    modifies data
    ensures Taken(old(data[..]), data[..], va, cs, k, req)
  {
    ghost var m0 := data[..];
    SplitReady(va, cs, k, req);
    SplitChunk(data, va, result, o, req, cs[k].size, NextLink(va, cs, k), Offset(cs, k + 1), k + 1 < |cs|);
    TakenAt(m0, data[..], va, cs, k, req, o, o + H + req as nat, Wrap32(cs[k].size as int - req as int - H),
            result, NextLink(va, cs, k), Wrap32(va as int + (o + H + req as nat)));
  }

  /**
   * allocate's split of the chunk at `result`, whose header is at byte `o`
   * of the heap bytes `data` of a heap at `va`, for `req` bytes: the new
   * header after the taken chunk's `req` bytes, the next chunk's `prev`
   * when the taken chunk's `next` is not NULL, then the taken chunk's size,
   * `next` and flag, stored in the order of heap.c.  The header holds the
   * size `size` and the link `link`; `p` is the offset of the next chunk's
   * header.
   */
  method SplitChunk(data: array<u8>, va: u32, result: u32, o: nat, req: u32,
                    ghost size: u32, ghost link: u32, ghost p: nat, ghost hasNext: bool)
    requires va as int + o == result as int && o + H + req as int + H <= data.Length
    requires va as int + data.Length <= TWO_32
    requires hasNext ==> o + H + req as int + H <= p && p + H <= data.Length
    requires LE32(data[..], o + SIZE_AT) == size && LE32(data[..], o + NEXT_AT) == link
    requires link != 0 <==> hasNext
    requires hasNext ==> link as int == va as int + p
    modifies data
    ensures TakeWritten(old(data[..]), data[..], o, o + H + req as nat, p, hasNext, req,
                        Wrap32(size as int - req as int - H), result, link, Wrap32(va as int + (o + H + req as nat)))
  {
    ghost var m0 := data[..];
    var whole := LE32(data[..], o + SIZE_AT);
    var next := LE32(data[..], o + NEXT_AT);
    var n := o + H + req as nat;
    var newChunk := Wrap32(va as int + n);
    NewHeader(data, n, next, result, Wrap32(whole as int - req as int - H));
    ghost var m4 := data[..];
    if next != 0 {
      Write32(data, next as nat - va as nat + PREV_AT, newChunk);
    }
    ghost var m5 := data[..];
    Claim(data, o, req, newChunk);
    TakeSteps(m0, m4, m5, data[..], o, n, p, hasNext, req, Wrap32(whole as int - req as int - H), result, next, newChunk);
  }

  /** The taken chunk's header in a split: its size, its `next`, then its flag. */
  method Claim(data: array<u8>, o: nat, size: u32, next: u32)
    requires o + H <= data.Length
    modifies data
    ensures Claimed(old(data[..]), data[..], o, size, next)
  {
    Write32(data, o + SIZE_AT, size);
    ghost var m6 := data[..];
    Write32(data, o + NEXT_AT, next);
    ghost var m7 := data[..];
    data[o + ALLOCATED_AT] := Flag(true);
    LE32Kept(m6, m7, o + SIZE_AT);
    LE32Kept(m7, data[..], o + SIZE_AT);
    LE32Kept(m7, data[..], o + NEXT_AT);
  }

  /** The new chunk's header of a split: its flag, size, `prev` and `next`, in that order. */
  method NewHeader(data: array<u8>, n: nat, next: u32, prev: u32, rest: u32)
    requires n + H <= data.Length
    modifies data
    ensures HeaderWritten(old(data[..]), data[..], n, next, prev, rest, false)
  {
    data[n + ALLOCATED_AT] := Flag(false);
    Write32(data, n + SIZE_AT, rest);
    ghost var m2 := data[..];
    Write32(data, n + PREV_AT, prev);
    ghost var m3 := data[..];
    Write32(data, n + NEXT_AT, next);
    LE32Kept(m2, m3, n + SIZE_AT);
    LE32Kept(m3, data[..], n + SIZE_AT);
    LE32Kept(m3, data[..], n + PREV_AT);
  }

  /** heap_init's header for the one free chunk of `size` bytes: allocated, prev, next and size, stored in that order. */
  method FirstHeader(data: array<u8>, size: u32)
    modifies data
    ensures H <= data.Length ==> HeaderIs(data[..], 0, 0, 0, size, false)
  {
    if data.Length < H {
      return;
    }
    data[ALLOCATED_AT] := Flag(false);
    Write32(data, PREV_AT, 0);
    ghost var m2 := data[..];
    Write32(data, NEXT_AT, 0);
    ghost var m3 := data[..];
    Write32(data, SIZE_AT, size);
    LE32Kept(m2, m3, PREV_AT);
    LE32Kept(m3, data[..], PREV_AT);
    LE32Kept(m3, data[..], NEXT_AT);
  }

  /**
   * kfree on the chunk `i` whose payload is at `ptr`, in a heap at `va`
   * whose bytes are `data`: clear its flag, merge it into a free
   * predecessor, then merge a free successor into the chunk that holds it.
   */
  method FreeIn(data: array<u8>, va: u32, cs: seq<Chunk>, i: nat, ptr: u32) returns (cs': seq<Chunk>)
    requires data.Length == Total(cs) < TWO_32 && 0 < va && va as int + Total(cs) <= TWO_32
    requires i < |cs| && DataAddr(va, cs, i) == ptr && Headers(data[..], va, cs)
    modifies data
    ensures FreeWritten(old(data[..]), data[..], va, cs, i)
    ensures cs' == FreeSpec(cs, i).0 && Headers(data[..], va, cs')
  {
    ghost var m0 := data[..];
    HeaderBelow(va, cs, i);
    LinksNull(va, cs, i);
    var chunk := Wrap32(ptr as int - H);
    var o := chunk as nat - va as nat;
    MarkHeaders(m0, va, cs, i, false);
    data[o + ALLOCATED_AT] := Flag(false);
    ghost var m1 := data[..];
    assert m1 == m0[Offset(cs, i) + ALLOCATED_AT := Flag(false)];
    var c1 := cs[i := Chunk(cs[i].size, false)];
    assert Total(c1) == Total(cs) by {
      SameSizes(cs, c1, |cs|);
      OffsetEnd(cs);
      OffsetEnd(c1);
    }
    SameSizes(cs, c1, i);
    assert chunk == ChunkAddr(va, c1, i);
    var c2, j, at := FreePrev(data, va, c1, i, chunk);
    ghost var m2 := data[..];
    cs' := FreeNext(data, va, c2, j, at);
    assert PrevStores(m1, m2, va, c1, i) && NextStores(m2, data[..], va, c2, j);
  }

  /** kfree's first merge: chunk `i`, at `chunk`, into the chunk before it when the `prev` header says it is free. */
  method FreePrev(data: array<u8>, va: u32, c: seq<Chunk>, i: nat, chunk: u32) returns (c2: seq<Chunk>, j: nat, at: u32)
    requires data.Length == Total(c) < TWO_32 && 0 < va && va as int + Total(c) <= TWO_32
    requires i < |c| && chunk == ChunkAddr(va, c, i) && Headers(data[..], va, c)
    modifies data
    ensures PrevStores(old(data[..]), data[..], va, c, i) && (c2, j) == CoalescePrev(c, i)
    ensures at == ChunkAddr(va, c2, j) && Headers(data[..], va, c2) && Total(c2) == Total(c)
  {
    ghost var m0 := data[..];
    var prev, prevFree := PrevFree(data, va, c, i, chunk);
    c2, j := CoalescePrev(c, i).0, CoalescePrev(c, i).1;
    if prevFree {
      MergePrev(data, va, c, i, chunk, prev);
      PrevMerged(m0, data[..], va, c, i);
      at := prev;
    } else {
      assert c2 == c && j == i;
      at := chunk;
    }
  }

  /** kfree's test of the `prev` header of chunk `i`, at `chunk`: it is free exactly when chunk `i - 1` exists and is free. */
  method PrevFree(data: array<u8>, va: u32, c: seq<Chunk>, i: nat, chunk: u32) returns (prev: u32, prevFree: bool)
    requires data.Length == Total(c) < TWO_32 && 0 < va && va as int + Total(c) <= TWO_32
    requires i < |c| && chunk == ChunkAddr(va, c, i) && Headers(data[..], va, c)
    ensures prevFree == (i > 0 && !c[i - 1].used)
    ensures HeaderAt(data[..], va, c, i) && (i > 0 ==> prev == ChunkAddr(va, c, i - 1) && HeaderAt(data[..], va, c, i - 1))
  {
    PrevRead(data[..], va, c, i);
    var o := chunk as nat - va as nat;
    prev := LE32(data[..], o + PREV_AT);
    prevFree := prev != 0 && data[prev as nat - va as nat + ALLOCATED_AT] == Flag(false);
  }

  /** The merge of chunk `i`, at `chunk`, into the free chunk before it, at `prev`. */
  method MergePrev(data: array<u8>, va: u32, c: seq<Chunk>, i: nat, chunk: u32, prev: u32)
    requires 0 < i < |c| && data.Length == Total(c) < TWO_32 && 0 < va && va as int + Total(c) <= TWO_32
    requires HeaderAt(data[..], va, c, i) && HeaderAt(data[..], va, c, i - 1)
    requires chunk == ChunkAddr(va, c, i) && prev == ChunkAddr(va, c, i - 1)
    modifies data
    ensures Merged(old(data[..]), data[..], va, c, i - 1)
  {
    ghost var m0 := data[..];
    JoinReady(va, c, i);
    var o := chunk as nat - va as nat;
    var po := prev as nat - va as nat;
    JoinPrev(data, va, prev, po, o, Offset(c, i + 1), i + 1 < |c|);
    MergedAfterJoin(m0, data[..], va, c, i, po, o, prev, Offset(c, i + 1), i + 1 < |c|);
  }

  /**
   * kfree's merge of the chunk whose header is at byte `o` into the chunk
   * before it, at `prev` (byte `po`): the previous chunk's `next`, then its
   * size, then, when `next` is not NULL, the `prev` of the chunk after, at
   * byte `q`.
   */
  method JoinPrev(data: array<u8>, va: u32, prev: u32, po: nat, o: nat, ghost q: nat, ghost hasNext: bool)
    requires va as int + po == prev as int && po + H <= o && o + H <= data.Length && va as int + data.Length <= TWO_32
    requires hasNext ==> o + H <= q && q + H <= data.Length
    requires LE32(data[..], o + NEXT_AT) != 0 <==> hasNext
    requires hasNext ==> LE32(data[..], o + NEXT_AT) as int == va as int + q
    modifies data
    ensures MergeWritten(old(data[..]), data[..], po, q, hasNext, LE32(old(data[..]), o + NEXT_AT),
                         Wrap32(LE32(old(data[..]), po + SIZE_AT) as int + LE32(old(data[..]), o + SIZE_AT) as int + H), prev)
  {
    ghost var m0 := data[..];
    var next := LE32(data[..], o + NEXT_AT);
    var sum := Wrap32(LE32(data[..], po + SIZE_AT) as int + LE32(data[..], o + SIZE_AT) as int + H);
    Write32(data, po + NEXT_AT, next);
    ghost var m1 := data[..];
    Write32(data, po + SIZE_AT, sum);
    ghost var m2 := data[..];
    if next != 0 {
      Write32(data, next as nat - va as nat + PREV_AT, prev);
    }
    MergeSteps(m0, m1, m2, data[..], po, q, hasNext, next, sum, prev, false);
  }

  /** kfree's second merge: the chunk after chunk `j`, at `chunk`, into it when the `next` header says it is free. */
  method FreeNext(data: array<u8>, va: u32, c: seq<Chunk>, j: nat, chunk: u32) returns (c': seq<Chunk>)
    requires data.Length == Total(c) < TWO_32 && 0 < va && va as int + Total(c) <= TWO_32
    requires j < |c| && chunk == ChunkAddr(va, c, j) && Headers(data[..], va, c)
    modifies data
    ensures NextStores(old(data[..]), data[..], va, c, j) && c' == CoalesceNext(c, j)
    ensures Headers(data[..], va, c')
  {
    ghost var m0 := data[..];
    NextRead(m0, va, c, j);
    var o := chunk as nat - va as nat;
    var next := LE32(data[..], o + NEXT_AT);
    var nextFree := next != 0 && data[next as nat - va as nat + ALLOCATED_AT] == Flag(false);
    assert nextFree == (j + 1 < |c| && !c[j + 1].used);
    if nextFree {
      MergeNext(data, va, c, j, chunk, next);
      MergeResult(m0, data[..], va, c, j);
      c' := Merge(c, j);
    } else {
      c' := c;
    }
  }

  /** The merge of the free chunk after chunk `j`, at `next`, into chunk `j`, at `chunk`. */
  method MergeNext(data: array<u8>, va: u32, c: seq<Chunk>, j: nat, chunk: u32, next: u32)
    requires j + 1 < |c| && data.Length == Total(c) < TWO_32 && 0 < va && va as int + Total(c) <= TWO_32
    requires HeaderAt(data[..], va, c, j) && HeaderAt(data[..], va, c, j + 1)
    requires chunk == ChunkAddr(va, c, j) && next == ChunkAddr(va, c, j + 1)
    modifies data
    ensures Merged(old(data[..]), data[..], va, c, j)
  {
    ghost var m0 := data[..];
    AbsorbReady(va, c, j);
    var o := chunk as nat - va as nat;
    var no := next as nat - va as nat;
    AbsorbNext(data, va, chunk, o, no, Offset(c, j + 2), j + 2 < |c|);
    MergedAfterAbsorb(m0, data[..], va, c, j, o, no, chunk, Offset(c, j + 2), j + 2 < |c|);
  }

  /**
   * kfree's merge of the chunk whose header is at byte `no` into the chunk
   * before it, at `chunk` (byte `o`): its size, then its `next`, then, when
   * the new `next` is not NULL, the `prev` of the chunk after, at byte `q`.
   */
  method AbsorbNext(data: array<u8>, va: u32, chunk: u32, o: nat, no: nat, ghost q: nat, ghost hasNext: bool)
    requires va as int + o == chunk as int && o + H <= no && no + H <= data.Length && va as int + data.Length <= TWO_32
    requires hasNext ==> no + H <= q && q + H <= data.Length
    requires LE32(data[..], no + NEXT_AT) != 0 <==> hasNext
    requires hasNext ==> LE32(data[..], no + NEXT_AT) as int == va as int + q
    modifies data
    ensures MergeWritten(old(data[..]), data[..], o, q, hasNext, LE32(old(data[..]), no + NEXT_AT),
                         Wrap32(LE32(old(data[..]), o + SIZE_AT) as int + LE32(old(data[..]), no + SIZE_AT) as int + H), chunk)
  {
    ghost var m0 := data[..];
    var sum := Wrap32(LE32(data[..], o + SIZE_AT) as int + LE32(data[..], no + SIZE_AT) as int + H);
    var nextNext := LE32(data[..], no + NEXT_AT);
    Write32(data, o + SIZE_AT, sum);
    ghost var m1 := data[..];
    Write32(data, o + NEXT_AT, nextNext);
    ghost var m2 := data[..];
    if nextNext != 0 {
      Write32(data, nextNext as nat - va as nat + PREV_AT, chunk);
    }
    MergeSteps(m0, m1, m2, data[..], o, q, hasNext, nextNext, sum, chunk, true);
  }

  /** `heap_allocator` together with the chunk list and the bytes of the heap, headers included. */
  class Heap {
    var virtualAddress: u32
    var size: u32
    var chunks: seq<Chunk>
    var data: array<u8>

    /**
     * The chunks tile the heap exactly (the total-size invariant), the heap
     * lies above address 0 and fits the 32-bit address space, no two
     * neighbours are both free, and every chunk's header is in the heap
     * bytes with its links, size and flag.
     */
    ghost predicate Valid()
      reads this, data
    {
      |chunks| >= 1 && Total(chunks) == size as nat
      && 0 < virtualAddress && virtualAddress as int + size as int <= TWO_32
      && data.Length == size as nat
      && NoAdjacentFree(chunks)
      && Headers(data[..], virtualAddress, chunks)
    }

    /** `ptr` is the payload address of one of the chunks. */
    predicate IsChunkData(ptr: u32)
      reads this
    {
      exists k :: 0 <= k < |chunks| && DataAddr(virtualAddress, chunks, k) == ptr
    }

    /** The zero-initialised global before heap_init. */
    constructor ()
      ensures virtualAddress == 0 && size == 0 && chunks == []
    {
      virtualAddress := 0;
      size := 0;
      chunks := [];
      data := new u8[0];
    }

    /**
     * heap_init: `numPages < 1` is rejected with -EINVARG.  Otherwise page
     * `i` of the heap is mapped onto `frames[i]`, the page_alloc result of
     * the i-th iteration, and the heap becomes one free chunk of
     * `numPages * 4096 - H` bytes (in uint32_t arithmetic), whose header
     * (flag, `prev`, `next`, size, in that order) is written at its start.
     */
    method Init(va: u32, numPages: u32, pmem: array<u32>, dir: u32, frames: seq<u32>) returns (res: u32)
      requires pmem.Length == Paging.MEM_WORDS && Paging.IsAligned(dir)
      requires |frames| == numPages as int
      modifies this, pmem
      ensures numPages < 1 ==>
                res == Negate(EINVARG) && pmem[..] == old(pmem[..])
                && virtualAddress == old(virtualAddress) && size == old(size)
                && chunks == old(chunks) && data == old(data)
      ensures numPages >= 1 ==>
                res == EOK && virtualAddress == va && size == Wrap32(numPages as int * PAGE_SIZE)
                && chunks == [Chunk(Wrap32(size as int - H), false)]
                && fresh(data) && data.Length == size as nat
                && pmem[..] == MapPages(old(pmem[..]), dir, va, frames, numPages as nat)
      ensures numPages >= 1 && size as nat >= H ==> HeaderIs(data[..], 0, 0, 0, Wrap32(size as int - H), false)
      ensures (numPages >= 1 && numPages as int * PAGE_SIZE < TWO_32
               && 0 < va && va as int + numPages as int * PAGE_SIZE <= TWO_32) ==> Valid()
    {
      if numPages < 1 {
        return Negate(EINVARG);
      }
      virtualAddress := va;
      size := Wrap32(numPages as int * PAGE_SIZE);
      MapHeapPages(pmem, dir, va, frames);
      chunks := [Chunk(Wrap32(size as int - H), false)];
      data := new u8[size];
      FirstHeader(data, Wrap32(size as int - H));
      if size as nat >= H {
        OneHeader(data[..], va, chunks[0]);
      }
      TotalOne(chunks[0]);
      res := EOK;
    }

    /**
     * allocate: the first free chunk, in list order, strictly larger than
     * `req` is taken and split when large enough; with no such chunk the
     * kernel panics.  The result is the address just past its header.  The
     * header stores are those AllocWritten describes.
     */
    method Allocate(req: u32) returns (r: Outcome<u32>)
      requires Valid()
      modifies this, data
      ensures virtualAddress == old(virtualAddress) && size == old(size) && data == old(data)
      ensures AllocWritten(old(data[..]), data[..], virtualAddress, old(chunks), req)
      ensures r.Halt? <==> AllocateSpec(old(chunks), req).None?
      ensures AllocateSpec(old(chunks), req).None? ==> r == Halt && chunks == old(chunks)
      ensures AllocateSpec(old(chunks), req).Some? ==>
                var (cs, k) := AllocateSpec(old(chunks), req).value;
                chunks == cs && r == Done(DataAddr(virtualAddress, cs, k)) && Valid()
                && k < |cs| && cs[k].used && req <= cs[k].size && Offset(cs, k) + H + req as nat < size as nat
                && DataAddr(virtualAddress, cs, k) as int == virtualAddress as int + Offset(cs, k) + H
    {
      var cs := chunks;
      ghost var m0 := data[..];
      r, chunks := AllocateIn(data, virtualAddress, cs, req);
      if r.Done? {
        AllocatePreserves(cs, req);
        AllocHeaders(m0, data[..], virtualAddress, cs, req);
      }
    }

    /** kmalloc: allocate, then zero the `req` bytes handed out. */
    method Kmalloc(req: u32) returns (r: Outcome<u32>, ghost mA: seq<u8>)
      requires Valid()
      modifies this, data
      ensures virtualAddress == old(virtualAddress) && size == old(size) && data == old(data)
      ensures AllocateSpec(old(chunks), req).None? ==> r == Halt && data[..] == old(data[..])
      ensures AllocateSpec(old(chunks), req).Some? ==>
                var (cs, k) := AllocateSpec(old(chunks), req).value;
                chunks == cs && r == Done(DataAddr(virtualAddress, cs, k)) && Valid()
                && AllocWritten(old(data[..]), mA, virtualAddress, old(chunks), req)
                && Zeroed(data[..], mA, Offset(cs, k) + H, req as nat)
    {
      r := Allocate(req);
      mA := data[..];
      if r == Halt {
        return;
      }
      ghost var (cs, k) := AllocateSpec(old(chunks), req).value;
      var offset := r.value as nat - virtualAddress as nat;
      var _ := Strings.Memset(data, offset, 0, req as nat);
      PayloadKept(mA, data[..], virtualAddress, cs, k);
      assert Zeroed(data[..], mA, Offset(cs, k) + H, req as nat);
    }

    /**
     * kmalloc_aligned: allocate `req + alignment` bytes and move the pointer
     * up to the next multiple of `alignment`, by a whole `alignment` when it
     * is already aligned; then zero `req` bytes there.
     */
    method KmallocAligned(alignment: u32, req: u32) returns (r: Outcome<u32>, ghost mA: seq<u8>)
      requires Valid()
      requires alignment > 0
      requires req as int + alignment as int < TWO_32
      modifies this, data
      ensures virtualAddress == old(virtualAddress) && size == old(size) && data == old(data)
      ensures AllocateSpec(old(chunks), req + alignment).None? ==> r == Halt && data[..] == old(data[..])
      ensures AllocateSpec(old(chunks), req + alignment).Some? ==>
                var (cs, k) := AllocateSpec(old(chunks), req + alignment).value;
                var p := AlignUp(DataAddr(virtualAddress, cs, k) as nat, alignment as nat);
                chunks == cs && r == Done(Wrap32(p)) && Valid()
                && AllocWritten(old(data[..]), mA, virtualAddress, old(chunks), req + alignment)
                && Zeroed(data[..], mA, p - virtualAddress as int, req as nat)
    {
      var raw := Allocate(req + alignment);
      mA := data[..];
      if raw == Halt {
        return Halt, mA;
      }
      ghost var (cs, k) := AllocateSpec(old(chunks), req + alignment).value;
      var p := raw.value as int + (alignment as int - raw.value as int % alignment as int);
      AlignUpSpec(raw.value as nat, alignment as nat);
      assert p == AlignUp(DataAddr(virtualAddress, cs, k) as nat, alignment as nat);
      var offset := p - virtualAddress as int;
      var _ := Strings.Memset(data, offset, 0, req as nat);
      PayloadKept(mA, data[..], virtualAddress, cs, k);
      assert Zeroed(data[..], mA, p - virtualAddress as int, req as nat);
      r := Done(Wrap32(p));
    }

    /** kcalloc: as kmalloc for `num * elementSize` bytes, a product that wraps at 2^32. */
    method Kcalloc(num: u32, elementSize: u32) returns (r: Outcome<u32>, ghost mA: seq<u8>)
      requires Valid()
      modifies this, data
      ensures virtualAddress == old(virtualAddress) && size == old(size) && data == old(data)
      ensures var req := Wrap32(num as int * elementSize as int);
              (AllocateSpec(old(chunks), req).None? ==> r == Halt && data[..] == old(data[..]))
              && (AllocateSpec(old(chunks), req).Some? ==>
                    var (cs, k) := AllocateSpec(old(chunks), req).value;
                    chunks == cs && r == Done(DataAddr(virtualAddress, cs, k)) && Valid()
                    && AllocWritten(old(data[..]), mA, virtualAddress, old(chunks), req)
                    && Zeroed(data[..], mA, Offset(cs, k) + H, req as nat))
    {
      var req := Wrap32(num as int * elementSize as int);
      r := Allocate(req);
      mA := data[..];
      if r == Halt {
        return;
      }
      ghost var (cs, k) := AllocateSpec(old(chunks), req).value;
      var offset := r.value as nat - virtualAddress as nat;
      var _ := Strings.Memset(data, offset, 0, req as nat);
      PayloadKept(mA, data[..], virtualAddress, cs, k);
      assert Zeroed(data[..], mA, Offset(cs, k) + H, req as nat);
    }

    /**
     * kfree: the chunk whose payload is at `ptr` is marked free in its
     * header, merged into a free predecessor, and a free successor is
     * merged into the result, each merge storing the links and the size in
     * the headers as heap.c does.
     */
    method Kfree(ptr: u32) returns (ghost k: nat)
      requires Valid() && IsChunkData(ptr)
      modifies this, data
      ensures virtualAddress == old(virtualAddress) && size == old(size) && data == old(data)
      ensures k < |old(chunks)| && DataAddr(virtualAddress, old(chunks), k) == ptr
      ensures FreeWritten(old(data[..]), data[..], virtualAddress, old(chunks), k)
      ensures chunks == FreeSpec(old(chunks), k).0
      ensures Valid()
    {
      var i :| 0 <= i < |chunks| && DataAddr(virtualAddress, chunks, i) == ptr;
      k := i;
      FreePreserves(chunks, i);
      chunks := FreeIn(data, virtualAddress, chunks, i, ptr);
    }

    /**
     * krealloc after its allocation `r`: nothing more when kmalloc halted;
     * otherwise memcpy `req` bytes from `ptr` to the new payload, that of
     * chunk `kd`, then kfree(ptr).  The copy may read past `ptr`'s chunk,
     * headers included.
     */
    method CopyThenFree(ptr: u32, r: Outcome<u32>, req: u32, ghost cs: seq<Chunk>, ghost kd: nat, ghost m: seq<u8>) returns (ghost j: nat)
      requires Valid() && IsChunkData(ptr) && chunks == cs && data[..] == m
      requires virtualAddress <= ptr && ptr as int - virtualAddress as int + req as int <= size as int
      requires r.Done? ==> kd < |cs| && r.value as int == virtualAddress as int + Offset(cs, kd) + H && req <= cs[kd].size
                           && r.value as int - virtualAddress as int + req as int <= size as int
      modifies this, data
      ensures virtualAddress == old(virtualAddress) && size == old(size) && data == old(data) && Valid()
      ensures r.Halt? ==> data[..] == m && chunks == cs
      ensures r.Done? ==>
                j < |cs| && DataAddr(virtualAddress, cs, j) == ptr && chunks == FreeSpec(cs, j).0
                && FreeWritten(Strings.CopyForward(m, r.value as nat - virtualAddress as nat,
                                                   ptr as nat - virtualAddress as nat, req as nat),
                               data[..], virtualAddress, cs, j)
    {
      j := 0;
      if r.Halt? {
        return;
      }
      var dest := r.value;
      ChunkInside(chunks, kd);
      var _ := Strings.Memcpy(data, (dest - virtualAddress) as nat, (ptr - virtualAddress) as nat, req as nat);
      Strings.CopyForwardKeepsOutside(m, (dest - virtualAddress) as nat, (ptr - virtualAddress) as nat, req as nat);
      PayloadKept(m, data[..], virtualAddress, chunks, kd);
      j := Kfree(ptr);
    }

    /**
     * krealloc: allocate `req` bytes, copy `req` bytes from `ptr` with
     * memcpy, whatever the size of `ptr`'s chunk, then free `ptr`'s chunk.
     * The ghost outputs name the chunk list after the allocation, `cs`, the
     * chunk taken, `k`, the bytes after the allocation, `mA`, and `ptr`'s
     * chunk, `j`.
     */
    method Krealloc(ptr: u32, req: u32) returns (r: Outcome<u32>, ghost cs: seq<Chunk>, ghost k: nat, ghost j: nat, ghost mA: seq<u8>)
      requires Valid() && IsChunkData(ptr)
      requires virtualAddress <= ptr && ptr as int - virtualAddress as int + req as int <= size as int
      modifies this, data
      ensures virtualAddress == old(virtualAddress) && size == old(size) && data == old(data)
      ensures r.Halt? <==> AllocateSpec(old(chunks), req).None?
      ensures r.Halt? ==> data[..] == old(data[..]) && chunks == old(chunks)
      ensures r.Done? ==>
                AllocateSpec(old(chunks), req) == Some((cs, k))
                && r.value == DataAddr(virtualAddress, cs, k) && Valid() && Offset(cs, k) + H + req as nat <= size as nat
                && j < |cs| && DataAddr(virtualAddress, cs, j) == ptr && chunks == FreeSpec(cs, j).0
                && AllocWritten(old(data[..]), mA, virtualAddress, old(chunks), req)
                && |mA| == Total(cs) == size as nat && virtualAddress <= r.value
                && r.value as int - virtualAddress as int + req as int <= |mA|
                && FreeWritten(Strings.CopyForward(mA, r.value as nat - virtualAddress as nat,
                                                   ptr as nat - virtualAddress as nat, req as nat),
                               data[..], virtualAddress, cs, j)
    {
      ghost var cs0 := chunks;
      r := Allocate(req);
      mA, cs, k := data[..], chunks, 0;
      if r.Done? {
        k := AllocateSpec(cs0, req).value.1;
        ghost var _ := SurvivesAllocate(virtualAddress, cs0, req, ptr);
      }
      j := CopyThenFree(ptr, r, req, cs, k, mA);
    }
  }

  /** The `n` bytes at offset `at` are zero and every other byte is as before. */
  ghost predicate Zeroed(m: seq<u8>, m0: seq<u8>, at: int, n: nat) {
    |m| == |m0| && 0 <= at && at + n <= |m|
    && (forall i :: 0 <= i < |m| ==> m[i] == if at <= i < at + n then 0 else m0[i])
  }

  /** kmalloc_aligned's pointer adjustment. */
  function AlignUp(raw: nat, alignment: nat): nat
    requires alignment > 0
  {
    raw + (alignment - raw % alignment)
  }

  lemma {:induction false} AddDivisorMod(x: int, a: nat)
    requires a > 0
    ensures (x + a) % a == x % a
  {
    var q, r := x / a, x % a;
    var q2, r2 := (x + a) / a, (x + a) % a;
    assert x == q * a + r && x + a == q2 * a + r2;
    var d := q + 1 - q2;
    assert d * a == r2 - r;
  }

  lemma {:induction false} MultipleMod(m: nat, a: nat)
    requires a > 0
    ensures (m * a) % a == 0
  {
    if m > 0 {
      MultipleMod(m - 1, a);
      assert m * a == (m - 1) * a + a;
      AddDivisorMod((m - 1) * a, a);
    }
  }

  /** The adjusted pointer is a multiple of `alignment`, above `raw` by at least 1 and at most `alignment`. */
  lemma {:induction false} AlignUpSpec(raw: nat, alignment: nat)
    requires alignment > 0
    ensures AlignUp(raw, alignment) % alignment == 0
    ensures raw < AlignUp(raw, alignment) <= raw + alignment
  {
    var q := raw / alignment;
    assert raw == q * alignment + raw % alignment;
    assert AlignUp(raw, alignment) == (q + 1) * alignment;
    MultipleMod(q + 1, alignment);
  }
}
