/** Coalescing the shared page table into memory segments, and a secondary process mapping the pages
    back from it (deps/dpdk-extras/dpdk-patches-17.08/eal_memory.c, x86 branches). Addresses are 64-bit
    words with wrap-around. */
module Memseg {
  import opened Bits
  import opened HugepageTable

  function Add64(a: nat, b: nat): nat { (a + b) % WORD }

  function Sub64(a: nat, b: nat): nat { (a - b) % WORD }

  lemma StepAddress(base: nat, off: nat, a: nat, b: nat, d: nat)
    requires a < WORD && b < WORD && Add64(base, off) == a && Sub64(b, a) == d
    ensures Add64(base, off + d) == b
  {
  }

  /** `struct rte_memseg`. */
  datatype Seg = Seg(phys: nat, addr: nat, len: nat, socket: nat, pageSize: nat)

  const EMPTY := Seg(0, 0, 0, 0, 0)

  predicate Addressable(pages: seq<Page>) {
    forall i :: 0 <= i < |pages| ==> pages[i].phys < WORD && pages[i].va < WORD && pages[i].size < WORD
  }

  /** Page `q` continues the segment of the page `p` just before it. */
  predicate Continues(p: Page, q: Page) {
    && q.socket == p.socket
    && q.size == p.size
    && Sub64(q.phys, p.phys) == q.size
    && Sub64(q.va, p.va) == q.size
  }

  /** The number of the segment page `i` belongs to: one more than its predecessor's exactly when it does
      not continue it. */
  function SegId(pages: seq<Page>, i: nat): nat
    requires i < |pages|
  {
    if i == 0 then 0 else SegId(pages, i - 1) + if Continues(pages[i - 1], pages[i]) then 0 else 1
  }

  function Runs(pages: seq<Page>): nat {
    if pages == [] then 0 else SegId(pages, |pages| - 1) + 1
  }

  lemma {:induction false} SegIdMonotone(pages: seq<Page>, i: nat, j: nat)
    requires i <= j < |pages|
    ensures SegId(pages, i) <= SegId(pages, j) <= SegId(pages, i) + (j - i)
    decreases j
  {
    if i < j {
      SegIdMonotone(pages, i, j - 1);
    }
  }

  /** The runs are counted by their segments: each number below the count is the number of a page's segment, and no
      other is. */
  lemma RunsAreSegments(pages: seq<Page>, k: nat)
    ensures k < Runs(pages) <==> exists i :: 0 <= i < |pages| && SegId(pages, i) == k
  {
    hide Continues;
    if exists i :: 0 <= i < |pages| && SegId(pages, i) == k {
      var i :| 0 <= i < |pages| && SegId(pages, i) == k;
      SegIdMonotone(pages, i, |pages| - 1);
    } else if k < Runs(pages) {
      var n := |pages| - 1;
      while n > 0 && SegId(pages, n) > k
        invariant 0 <= n < |pages| && SegId(pages, n) >= k
      {
        n := n - 1;
      }
    }
  }

  /** Total size of the pages of segment `k` among the first `n`. */
  function SizeOf(pages: seq<Page>, k: int, n: nat): nat
    requires n <= |pages|
  {
    if n == 0 then 0 else SizeOf(pages, k, n - 1) + if SegId(pages, n - 1) == k then pages[n - 1].size else 0
  }

  lemma {:induction false} NothingYet(pages: seq<Page>, k: nat, n: nat)
    requires n <= |pages| && (n == 0 || SegId(pages, n - 1) < k)
    ensures SizeOf(pages, k, n) == 0
    decreases n
  {
    if n > 0 {
      if n > 1 {
        SegIdMonotone(pages, n - 2, n - 1);
      }
      NothingYet(pages, k, n - 1);
    }
  }

  /** Page `i` lies in segment `seg` at the offset of its predecessors there. */
  predicate PlacedIn(pages: seq<Page>, i: nat, seg: Seg)
    requires i < |pages|
  {
    var off := SizeOf(pages, SegId(pages, i), i);
    && seg.socket == pages[i].socket
    && seg.pageSize == pages[i].size
    && Add64(seg.addr, off) == pages[i].va
    && Add64(seg.phys, off) == pages[i].phys
  }

  /** `segs` describes the first `n` pages. */
  ghost predicate Describes(pages: seq<Page>, n: nat, segs: seq<Seg>)
    requires n <= |pages|
  {
    && (n > 0 ==> SegId(pages, n - 1) < |segs|)
    && (forall k :: 0 <= k < |segs| && (n == 0 || SegId(pages, n - 1) < k) ==> segs[k] == EMPTY)
    && (forall k :: 0 <= k < |segs| ==> segs[k].len == SizeOf(pages, k, n))
    && (forall i :: 0 <= i < n ==> SegId(pages, i) < |segs| && PlacedIn(pages, i, segs[SegId(pages, i)]))
  }

  function Tagged(pages: seq<Page>, i: nat): Page
    requires i < |pages|
  {
    pages[i].(memseg := SegId(pages, i))
  }

  lemma SizeOfNext(pages: seq<Page>, k: int, n: nat)
    requires n < |pages|
    ensures SizeOf(pages, k, n + 1) == SizeOf(pages, k, n) + if SegId(pages, n) == k then pages[n].size else 0
  {
  }

  function NewSeg(p: Page): Seg {
    Seg(p.phys, p.va, p.size, p.socket, p.size)
  }

  lemma PlacedFirst(pages: seq<Page>, n: nat)
    requires n < |pages| && Addressable(pages) && SizeOf(pages, SegId(pages, n), n) == 0
    ensures PlacedIn(pages, n, NewSeg(pages[n]))
  {
  }

  lemma PlacedNext(pages: seq<Page>, n: nat, seg: Seg, len: nat)
    requires 0 < n < |pages| && Addressable(pages) && PlacedIn(pages, n - 1, seg)
    requires SegId(pages, n - 1) == SegId(pages, n) && Continues(pages[n - 1], pages[n])
    ensures PlacedIn(pages, n, seg.(len := len))
  {
    hide SegId, SizeOf, Add64, Sub64;
    var k := SegId(pages, n);
    var off := SizeOf(pages, k, n - 1);
    SizeOfNext(pages, k, n - 1);
    StepAddress(seg.addr, off, pages[n - 1].va, pages[n].va, pages[n].size);
    StepAddress(seg.phys, off, pages[n - 1].phys, pages[n].phys, pages[n].size);
  }

  lemma PlacedAnyLen(pages: seq<Page>, i: nat, seg: Seg, len: nat)
    requires i < |pages| && PlacedIn(pages, i, seg)
    ensures PlacedIn(pages, i, seg.(len := len))
  {
  }

  lemma PlacedSize(pages: seq<Page>, i: nat, seg: Seg)
    requires i < |pages| && PlacedIn(pages, i, seg)
    ensures seg.pageSize == pages[i].size
  {
  }

  lemma DescribesNew(pages: seq<Page>, n: nat, segs: seq<Seg>, k: nat)
    requires n < |pages| && Addressable(pages) && Describes(pages, n, segs)
    requires k < |segs| && k == SegId(pages, n) && (n == 0 || k == SegId(pages, n - 1) + 1)
    ensures Describes(pages, n + 1, segs[k := NewSeg(pages[n])])
  {
    hide SegId, SizeOf, PlacedIn;
    var segs' := segs[k := NewSeg(pages[n])];
    NothingYet(pages, k, n);
    forall kk | 0 <= kk < |segs|
      ensures segs'[kk].len == SizeOf(pages, kk, n + 1)
    {
      SizeOfNext(pages, kk, n);
    }
    PlacedFirst(pages, n);
    forall i | 0 <= i < n
      ensures SegId(pages, i) < k
    {
      SegIdMonotone(pages, i, n - 1);
    }
  }

  lemma DescribesMore(pages: seq<Page>, n: nat, segs: seq<Seg>, k: nat)
    requires 0 < n < |pages| && Addressable(pages) && Describes(pages, n, segs)
    requires k == SegId(pages, n - 1) == SegId(pages, n) && Continues(pages[n - 1], pages[n])
    ensures k < |segs| && segs[k].pageSize == pages[n].size
    ensures Describes(pages, n + 1, segs[k := segs[k].(len := segs[k].len + segs[k].pageSize)])
  {
    hide SegId, SizeOf, PlacedIn;
    PlacedSize(pages, n - 1, segs[k]);
    var len := segs[k].len + segs[k].pageSize;
    var segs' := segs[k := segs[k].(len := len)];
    forall kk | 0 <= kk < |segs|
      ensures segs'[kk].len == SizeOf(pages, kk, n + 1)
    {
      SizeOfNext(pages, kk, n);
    }
    forall i | 0 <= i < n
      ensures SegId(pages, i) < |segs| && PlacedIn(pages, i, segs'[SegId(pages, i)])
    {
      if SegId(pages, i) == k {
        PlacedAnyLen(pages, i, segs[k], len);
      }
    }
    PlacedNext(pages, n, segs[k], len);
  }

  lemma RestEmpty(pages: seq<Page>, segs: seq<Seg>)
    requires Describes(pages, |pages|, segs)
    ensures forall k :: Runs(pages) <= k < |segs| ==> segs[k] == Seg(0, 0, 0, 0, 0)
  {
  }

  /** The segment loop of `rte_eal_hugepage_init`: it fails exactly when there are more runs than segment
      slots; otherwise the segments describe the pages and every page carries its segment's number. */
  method FillMemsegs(hp: array<Page>, memseg: array<Seg>) returns (ok: bool)
    requires Addressable(hp[..]) && forall k :: 0 <= k < memseg.Length ==> memseg[k] == EMPTY
    modifies hp, memseg
    ensures ok <==> Runs(old(hp[..])) <= memseg.Length
    ensures ok ==> forall i :: 0 <= i < hp.Length ==> hp[i] == Tagged(old(hp[..]), i)
    ensures ok ==> Describes(old(hp[..]), hp.Length, memseg[..])
    ensures ok ==> forall k :: Runs(old(hp[..])) <= k < memseg.Length ==> memseg[k] == Seg(0, 0, 0, 0, 0)
  {
    hide SegId, Describes, Continues;
    ghost var pages := hp[..];
    NothingDescribed(pages, memseg[..]);
    var j := -1;
    for i := 0 to hp.Length
      invariant -1 <= j < memseg.Length
      invariant j == if i == 0 then -1 else SegId(pages, i - 1)
      invariant forall p :: 0 <= p < i ==> hp[p] == Tagged(pages, p)
      invariant forall p :: i <= p < hp.Length ==> hp[p] == pages[p]
      invariant Describes(pages, i, memseg[..])
    {
      SegIdNext(pages, i);
      ghost var segs := memseg[..];
      var newMemseg := i == 0 || !Continues(hp[i - 1], hp[i]);
      if i > 0 {
        ContinuesTagged(pages, i);
      }
      if newMemseg {
        j := j + 1;
        if j == memseg.Length {
          SegIdMonotone(pages, i, hp.Length - 1);
          return false;
        }
        memseg[j] := NewSeg(hp[i]);
        DescribesNew(pages, i, segs, j);
        assert memseg[..] == segs[j := memseg[j]];
      } else {
        DescribesMore(pages, i, segs, j);
        memseg[j] := memseg[j].(len := memseg[j].len + memseg[j].pageSize);
        assert memseg[..] == segs[j := memseg[j]];
      }
      hp[i] := hp[i].(memseg := j);
    }
    RestEmpty(pages, memseg[..]);
    return true;
  }

  lemma NothingDescribed(pages: seq<Page>, segs: seq<Seg>)
    requires forall k :: 0 <= k < |segs| ==> segs[k] == EMPTY
    ensures Describes(pages, 0, segs)
  {
  }

  lemma SegIdNext(pages: seq<Page>, i: nat)
    requires i < |pages|
    ensures SegId(pages, i)
         == if i == 0 then 0 else SegId(pages, i - 1) + if Continues(pages[i - 1], pages[i]) then 0 else 1
  {
  }

  lemma ContinuesTagged(pages: seq<Page>, i: nat)
    requires 0 < i < |pages|
    ensures Continues(Tagged(pages, i - 1), pages[i]) == Continues(pages[i - 1], pages[i])
  {
  }

  // ---------- What a segment is ----------

  /** Two pages share a segment exactly when every page between them continues its predecessor: the
      segments are the maximal contiguous runs. */
  lemma {:induction false} SegmentsAreMaximalRuns(pages: seq<Page>, i: nat, j: nat)
    requires i <= j < |pages|
    ensures SegId(pages, i) == SegId(pages, j) <==> forall p :: i < p <= j ==> Continues(pages[p - 1], pages[p])
    decreases j
  {
    hide Continues;
    if i < j {
      SegmentsAreMaximalRuns(pages, i, j - 1);
      SegIdMonotone(pages, i, j - 1);
      if SegId(pages, i) == SegId(pages, j) {
        forall p | i < p <= j
          ensures Continues(pages[p - 1], pages[p])
        {
        }
      }
    }
  }

  lemma OffsetCancels(a: nat, b: nat, off: nat)
    ensures Sub64(Add64(a, off), Add64(b, off)) == Sub64(a, b)
  {
  }

  /** Inside a segment, physical and virtual addresses differ by the same amount everywhere. */
  lemma SegmentTranslation(pages: seq<Page>, segs: seq<Seg>, i: nat, j: nat)
    requires Describes(pages, |pages|, segs) && i < |pages| && j < |pages| && SegId(pages, i) == SegId(pages, j)
    ensures Sub64(pages[i].phys, pages[i].va) == Sub64(pages[j].phys, pages[j].va)
  {
    hide SegId, SizeOf, Sub64, Add64;
    var k := SegId(pages, i);
    assert PlacedIn(pages, i, segs[k]) && PlacedIn(pages, j, segs[k]);
    OffsetCancels(segs[k].phys, segs[k].addr, SizeOf(pages, k, i));
    OffsetCancels(segs[k].phys, segs[k].addr, SizeOf(pages, k, j));
  }

  // ---------- A secondary process ----------

  /** Some page up to `i` opens every segment up to the one of `i`. */
  lemma {:induction false} SegIdReached(pages: seq<Page>, i: nat, k: nat) returns (p: nat)
    requires i < |pages| && k <= SegId(pages, i)
    ensures p <= i && SegId(pages, p) == k
    decreases i
  {
    if SegId(pages, i) == k {
      p := i;
    } else {
      p := SegIdReached(pages, i - 1, k);
    }
  }

  lemma {:induction false} SizeOfGap(pages: seq<Page>, k: int, i: nat, n: nat)
    requires i <= n <= |pages|
    ensures SizeOf(pages, k, i) <= SizeOf(pages, k, n)
    ensures SizeOf(pages, k, i) == SizeOf(pages, k, n) ==>
              forall p :: i <= p < n && SegId(pages, p) == k ==> pages[p].size == 0
    decreases n
  {
    if i < n {
      SizeOfGap(pages, k, i, n - 1);
    }
  }

  /** The shared table of a primary: active pages with an address and a size, then cleared entries. */
  predicate Compacted(pages: seq<Page>, active: nat) {
    && active <= |pages|
    && (forall i :: 0 <= i < active ==> pages[i].size > 0)
    && (forall i :: active <= i < |pages| ==> pages[i] == CLEARED)
  }

  lemma SameSegSize(pages: seq<Page>, segs: seq<Seg>, i: nat, p: nat)
    requires Describes(pages, |pages|, segs) && i < |pages| && p < |pages| && SegId(pages, i) == SegId(pages, p)
    ensures pages[i].size == pages[p].size
  {
    hide SegId, SizeOf;
    PlacedSize(pages, i, segs[SegId(pages, i)]);
    PlacedSize(pages, p, segs[SegId(pages, p)]);
  }

  /** A segment holding a byte holds only active pages; a segment holding none holds no active page. */
  lemma SegLength(pages: seq<Page>, active: nat, segs: seq<Seg>, i: nat)
    requires Compacted(pages, active) && Describes(pages, |pages|, segs) && i < |pages|
    ensures SegId(pages, i) < |segs| && (i < active <==> segs[SegId(pages, i)].len > 0)
  {
    hide SegId, SizeOf, Describes;
    var k := SegId(pages, i);
    PlacedAt(pages, segs, i);
    SegTotal(pages, segs, k);
    if i < active {
      SizeOfNext(pages, k, i);
      SizeOfGap(pages, k, i + 1, |pages|);
    } else {
      forall p | 0 <= p < |pages| && SegId(pages, p) == k
        ensures pages[p].size == 0
      {
        SameSegSize(pages, segs, i, p);
      }
      NoSize(pages, k, |pages|);
    }
  }

  lemma {:induction false} NoSize(pages: seq<Page>, k: int, n: nat)
    requires n <= |pages| && forall p :: 0 <= p < n && SegId(pages, p) == k ==> pages[p].size == 0
    ensures SizeOf(pages, k, n) == 0
    decreases n
  {
    if n > 0 {
      NoSize(pages, k, n - 1);
    }
  }

  /** When a segment without length stops the walk, every active page is behind it. */
  lemma WalkComplete(pages: seq<Page>, active: nat, segs: seq<Seg>, s: nat)
    requires Compacted(pages, active) && Describes(pages, |pages|, segs)
    requires s == |segs| || (s < |segs| && segs[s].len == 0)
    ensures forall i :: 0 <= i < active ==> SegId(pages, i) < s
  {
    hide SegId, SizeOf, PlacedIn;
    forall i | 0 <= i < active
      ensures SegId(pages, i) < s
    {
      SegLength(pages, active, segs, i);
      if SegId(pages, i) >= s {
        var p := SegIdReached(pages, i, s);
        SegLength(pages, active, segs, p);
      }
    }
  }

  /** Pages of the segments below `s`, and of segment `s` those below `i`, are mapped where the primary
      had them. */
  ghost predicate Restored(pages: seq<Page>, active: nat, s: nat, i: nat, mapped: map<nat, nat>)
    requires active <= |pages|
  {
    && (forall p: nat :: p in mapped <==> p < active && (SegId(pages, p) < s || (SegId(pages, p) == s && p < i)))
    && (forall p: nat :: p in mapped ==> mapped[p] == pages[p].va)
  }

  /** The kernel honours the address of every active page, and then each of them is mapped there and nothing
      else is; or it refuses one, and the secondary gives up. */
  ghost predicate Attached(pages: seq<Page>, active: int, honoured: (nat, nat) -> bool, ok: bool, mapped: map<nat, nat>)
    requires active <= |pages|
  {
    && (ok <==> forall i :: 0 <= i < active ==> honoured(i, pages[i].va))
    && (ok ==> forall i: nat :: i in mapped <==> i < active)
    && (ok ==> forall i :: 0 <= i < active ==> mapped[i] == pages[i].va)
  }

  /** The mapping loop of `rte_eal_hugepage_attach`. `honoured(i, a)` says whether the kernel maps page `i`
      at the very address `a` asked for. The walk succeeds exactly when the kernel honours the primary's
      address of every active page, and then it has mapped each of them there and nothing else. */
  method Attach(hp: array<Page>, memseg: array<Seg>, honoured: (nat, nat) -> bool, ghost pages: seq<Page>,
                ghost active: nat)
    returns (ok: bool, mapped: map<nat, nat>)
    requires |pages| == hp.Length && Compacted(pages, active) && Describes(pages, |pages|, memseg[..])
    requires forall i :: 0 <= i < hp.Length ==> hp[i] == Tagged(pages, i)
    ensures Attached(pages, active, honoured, ok, mapped)
  {
    hide SegId, SizeOf, Describes, PlacedIn;
    mapped := map[];
    var s := 0;
    while s < memseg.Length && memseg[s].len > 0
      invariant s <= memseg.Length
      invariant Restored(pages, active, s, 0, mapped)
      invariant forall p: nat :: p in mapped ==> honoured(p, pages[p].va)
      decreases memseg.Length - s
    {
      var offset := 0;
      var i := 0;
      NoSizeAtStart(pages, s);
      SegTotal(pages, memseg[..], s);
      while i < hp.Length && offset < memseg[s].len
        invariant i <= hp.Length
        invariant offset == SizeOf(pages, s, i)
        invariant Restored(pages, active, s, i, mapped)
        invariant forall p: nat :: p in mapped ==> honoured(p, pages[p].va)
        decreases hp.Length - i
      {
        SizeOfNext(pages, s, i);
        if hp[i].memseg == s {
          SegLength(pages, active, memseg[..], i);
          PlacedAt(pages, memseg[..], i);
          var addr := Add64(memseg[s].addr, offset);
          if !honoured(i, addr) {
            return false, mapped;
          }
          mapped := mapped[i := addr];
          offset := offset + hp[i].size;
        }
        i := i + 1;
      }
      SizeOfGap(pages, s, i, |pages|);
      s := s + 1;
    }
    WalkComplete(pages, active, memseg[..], s);
    return true, mapped;
  }

  lemma NoSizeAtStart(pages: seq<Page>, k: int)
    ensures SizeOf(pages, k, 0) == 0
  {
  }

  lemma SegTotal(pages: seq<Page>, segs: seq<Seg>, k: nat)
    requires Describes(pages, |pages|, segs) && k < |segs|
    ensures segs[k].len == SizeOf(pages, k, |pages|)
  {
  }

  lemma PlacedAt(pages: seq<Page>, segs: seq<Seg>, i: nat)
    requires Describes(pages, |pages|, segs) && i < |pages|
    ensures SegId(pages, i) < |segs|
    ensures Add64(segs[SegId(pages, i)].addr, SizeOf(pages, SegId(pages, i), i)) == pages[i].va
  {
    hide SizeOf, SegId;
    assert PlacedIn(pages, i, segs[SegId(pages, i)]);
  }
}
