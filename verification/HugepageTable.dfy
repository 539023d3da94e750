/** The table of huge pages between the page calculation and the memory segments
    (deps/dpdk-extras/dpdk-patches-17.08/eal_memory.c): recounting pages per size and socket, unmapping
    the ones not needed, and compacting the rest into shared memory. */
module HugepageTable {
  import opened PageCalc

  /** `struct hugepage_file`; `va == 0` is a `final_va` of NULL. */
  datatype Page = Page(fileId: nat, size: nat, socket: nat, phys: nat, va: nat, memseg: int)

  const CLEARED := Page(0, 0, 0, 0, 0, 0)

  predicate InClass(p: Page, size: nat, s: nat) {
    p.size == size && p.socket == s
  }

  function Count(pages: seq<Page>, size: nat, s: nat): nat {
    if pages == [] then 0
    else Count(pages[..|pages| - 1], size, s) + if InClass(pages[|pages| - 1], size, s) then 1 else 0
  }

  lemma CountAppend(pages: seq<Page>, p: Page, size: nat, s: nat)
    ensures Count(pages + [p], size, s) == Count(pages, size, s) + if InClass(p, size, s) then 1 else 0
  {
    assert (pages + [p])[..|pages|] == pages;
  }

  predicate Distinct(sizes: seq<nat>) {
    forall i, j :: 0 <= i < j < |sizes| ==> sizes[i] != sizes[j]
  }

  /** Every page has a known size and a socket within range. */
  predicate Classified(pages: seq<Page>, sizes: seq<nat>, sockets: nat) {
    forall i :: 0 <= i < |pages| ==> pages[i].size in sizes && pages[i].socket < sockets
  }

  // ---------- Counting by class loses no page ----------

  function CountColumn(pages: seq<Page>, sizes: seq<nat>, s: nat): (c: seq<nat>)
    ensures |c| == |sizes| && forall j :: 0 <= j < |sizes| ==> c[j] == Count(pages, sizes[j], s)
  {
    seq(|sizes|, j requires 0 <= j < |sizes| => Count(pages, sizes[j], s))
  }

  function CountTotals(pages: seq<Page>, sizes: seq<nat>, sockets: nat): (c: seq<nat>)
    ensures |c| == sockets && forall s :: 0 <= s < sockets ==> c[s] == Sum(CountColumn(pages, sizes, s))
  {
    seq(sockets, s requires 0 <= s < sockets => Sum(CountColumn(pages, sizes, s)))
  }

  lemma CountColumnAppend(pages: seq<Page>, p: Page, sizes: seq<nat>, s: nat)
    requires Distinct(sizes) && p.size in sizes
    ensures Sum(CountColumn(pages + [p], sizes, s))
         == Sum(CountColumn(pages, sizes, s)) + if p.socket == s then 1 else 0
  {
    hide Count, Sum;
    var c, c' := CountColumn(pages, sizes, s), CountColumn(pages + [p], sizes, s);
    forall j | 0 <= j < |sizes|
      ensures c'[j] == c[j] + if InClass(p, sizes[j], s) then 1 else 0
    {
      CountAppend(pages, p, sizes[j], s);
    }
    var k :| 0 <= k < |sizes| && sizes[k] == p.size;
    if p.socket == s {
      assert c' == c[k := c[k] + 1];
      SumUpdate(c, k, c[k] + 1);
    } else {
      assert c' == c;
    }
  }

  lemma NothingCounted(sizes: seq<nat>, sockets: nat)
    ensures Sum(CountTotals([], sizes, sockets)) == 0
  {
    var t := CountTotals([], sizes, sockets);
    forall s | 0 <= s < sockets
      ensures t[s] == 0
    {
      SumZero(CountColumn([], sizes, s));
    }
    SumZero(t);
  }

  lemma CountTotalsAppend(pages: seq<Page>, p: Page, sizes: seq<nat>, sockets: nat)
    requires Distinct(sizes) && p.size in sizes && p.socket < sockets
    ensures Sum(CountTotals(pages + [p], sizes, sockets)) == Sum(CountTotals(pages, sizes, sockets)) + 1
  {
    hide Sum, CountColumn;
    var t, u := CountTotals(pages + [p], sizes, sockets), CountTotals(pages, sizes, sockets);
    forall s | 0 <= s < sockets
      ensures t[s] == u[s] + if p.socket == s then 1 else 0
    {
      CountColumnAppend(pages, p, sizes, s);
    }
    assert t == u[p.socket := u[p.socket] + 1];
    SumUpdate(u, p.socket, u[p.socket] + 1);
  }

  /** The classes partition the pages. */
  lemma {:induction false} CountPartition(pages: seq<Page>, sizes: seq<nat>, sockets: nat)
    requires Distinct(sizes) && Classified(pages, sizes, sockets)
    ensures Sum(CountTotals(pages, sizes, sockets)) == |pages|
    decreases |pages|
  {
    hide Sum, CountTotals;
    if pages == [] {
      NothingCounted(sizes, sockets);
    } else {
      var n := |pages| - 1;
      assert pages == pages[..n] + [pages[n]];
      CountPartition(pages[..n], sizes, sockets);
      CountTotalsAppend(pages[..n], pages[n], sizes, sockets);
    }
  }

  // ---------- Recount ----------

  /** Recounts the pages of each size on each socket. */
  method Recount(tbl: array<Page>, sizes: seq<nat>, numPages: array2<nat>)
    requires numPages.Length0 == |sizes| && Distinct(sizes)
    requires forall i :: 0 <= i < tbl.Length ==> tbl[i].socket < numPages.Length1
    modifies numPages
    ensures forall j, s :: 0 <= j < |sizes| && 0 <= s < numPages.Length1 ==>
              numPages[j, s] == Count(tbl[..], sizes[j], s)
  {
    hide Count;
    for j := 0 to |sizes|
      invariant forall k, s :: 0 <= k < j && 0 <= s < numPages.Length1 ==> numPages[k, s] == 0
    {
      for s := 0 to numPages.Length1
        invariant forall k, t :: 0 <= k < j && 0 <= t < numPages.Length1 ==> numPages[k, t] == 0
        invariant forall t :: 0 <= t < s ==> numPages[j, t] == 0
      {
        numPages[j, s] := 0;
      }
    }
    CountNothing();
    for i := 0 to tbl.Length
      invariant forall j, s :: 0 <= j < |sizes| && 0 <= s < numPages.Length1 ==>
                numPages[j, s] == Count(tbl[..i], sizes[j], s)
    {
      var p := tbl[i];
      assert tbl[..i + 1] == tbl[..i] + [p];
      for j := 0 to |sizes|
        invariant forall k, s :: 0 <= k < j && 0 <= s < numPages.Length1 ==>
                  numPages[k, s] == Count(tbl[..i + 1], sizes[k], s)
        invariant forall k, s :: j <= k < |sizes| && 0 <= s < numPages.Length1 ==>
                  numPages[k, s] == Count(tbl[..i], sizes[k], s)
      {
        forall s | 0 <= s < numPages.Length1
          ensures Count(tbl[..i + 1], sizes[j], s)
               == Count(tbl[..i], sizes[j], s) + if InClass(p, sizes[j], s) then 1 else 0
        {
          CountAppend(tbl[..i], p, sizes[j], s);
        }
        if p.size == sizes[j] {
          numPages[j, p.socket] := numPages[j, p.socket] + 1;
        }
      }
    }
    assert tbl[..tbl.Length] == tbl[..];
  }

  lemma CountNothing()
    ensures forall size, s :: Count([], size, s) == 0
  {
  }

  // ---------- Unmap ----------

  /** How many pages of its own class precede page `i`. */
  function Rank(pages: seq<Page>, i: nat): nat
    requires i < |pages|
  {
    Count(pages[..i], pages[i].size, pages[i].socket)
  }

  function IndexOf(sizes: seq<nat>, size: nat): (j: nat)
    requires size in sizes
    ensures j < |sizes| && sizes[j] == size
  {
    if sizes[0] == size then 0 else 1 + IndexOf(sizes[1..], size)
  }

  /** Page counts as a value: `limits[j][s]` pages of size `j` on socket `s`. */
  predicate Shape(limits: seq<seq<nat>>, sizes: seq<nat>, sockets: nat) {
    |limits| == |sizes| && forall j :: 0 <= j < |limits| ==> |limits[j]| == sockets
  }

  ghost function Limits(used: array2<nat>): (limits: seq<seq<nat>>)
    reads used
    ensures |limits| == used.Length0
    ensures forall j :: 0 <= j < |limits| ==>
              |limits[j]| == used.Length1 && forall s :: 0 <= s < used.Length1 ==> limits[j][s] == used[j, s]
  {
    seq(used.Length0, j requires 0 <= j < used.Length0 reads used =>
      seq(used.Length1, s requires 0 <= s < used.Length1 reads used => used[j, s]))
  }

  function LimitColumn(limits: seq<seq<nat>>, sockets: nat, s: nat): (c: seq<nat>)
    requires s < sockets && forall j :: 0 <= j < |limits| ==> |limits[j]| == sockets
    ensures |c| == |limits| && forall j :: 0 <= j < |limits| ==> c[j] == limits[j][s]
  {
    seq(|limits|, j requires 0 <= j < |limits| => limits[j][s])
  }

  /** A page stays mapped while fewer pages of its class precede it than the class may keep. */
  predicate Survives(pages: seq<Page>, i: nat, sizes: seq<nat>, sockets: nat, limits: seq<seq<nat>>)
    requires i < |pages| && Classified(pages, sizes, sockets) && Shape(limits, sizes, sockets)
  {
    Rank(pages, i) < limits[IndexOf(sizes, pages[i].size)][pages[i].socket]
  }

  function KeptPage(pages: seq<Page>, i: nat, sizes: seq<nat>, sockets: nat, limits: seq<seq<nat>>): Page
    requires i < |pages| && Classified(pages, sizes, sockets) && Shape(limits, sizes, sockets)
  {
    if Survives(pages, i, sizes, sockets, limits) then pages[i] else pages[i].(va := 0)
  }

  /** The class of `p` comes before size `j` and socket `s` in the order of the loops. */
  predicate Before(p: Page, sizes: seq<nat>, j: nat, s: nat)
    requires p.size in sizes
  {
    var k := IndexOf(sizes, p.size);
    k < j || (k == j && p.socket < s)
  }

  lemma IndexOfDistinct(sizes: seq<nat>, j: nat)
    requires Distinct(sizes) && j < |sizes|
    ensures IndexOf(sizes, sizes[j]) == j
  {
    hide IndexOf;
    var k := IndexOf(sizes, sizes[j]);
  }

  function CountBefore(pages: seq<Page>, sizes: seq<nat>, sockets: nat, j: nat, s: nat): nat
    requires Classified(pages, sizes, sockets)
  {
    if pages == [] then 0
    else
      CountBefore(pages[..|pages| - 1], sizes, sockets, j, s) + if Before(pages[|pages| - 1], sizes, j, s) then 1 else 0
  }

  lemma {:induction false} CountBeforeNext(pages: seq<Page>, sizes: seq<nat>, sockets: nat, j: nat, s: nat)
    requires Classified(pages, sizes, sockets) && Distinct(sizes) && j < |sizes| && s < sockets
    ensures CountBefore(pages, sizes, sockets, j, s + 1)
         == CountBefore(pages, sizes, sockets, j, s) + Count(pages, sizes[j], s)
    decreases |pages|
  {
    hide IndexOf;
    if pages != [] {
      CountBeforeNext(pages[..|pages| - 1], sizes, sockets, j, s);
      IndexOfDistinct(sizes, j);
    }
  }

  lemma {:induction false} CountBeforeEdges(pages: seq<Page>, sizes: seq<nat>, sockets: nat, j: nat)
    requires Classified(pages, sizes, sockets)
    ensures CountBefore(pages, sizes, sockets, 0, 0) == 0
    ensures CountBefore(pages, sizes, sockets, j, sockets) == CountBefore(pages, sizes, sockets, j + 1, 0)
    ensures CountBefore(pages, sizes, sockets, |sizes|, 0) == |pages|
    decreases |pages|
  {
    hide IndexOf;
    if pages != [] {
      CountBeforeEdges(pages[..|pages| - 1], sizes, sockets, j);
    }
  }

  /** The page total that `unmap_unneeded_hugepages` recomputes from the recount is the table size. */
  method TotalPages(numPages: array2<nat>, ghost pages: seq<Page>, ghost sizes: seq<nat>) returns (n: nat)
    requires numPages.Length0 == |sizes| && Distinct(sizes) && Classified(pages, sizes, numPages.Length1)
    requires forall j, s :: 0 <= j < |sizes| && 0 <= s < numPages.Length1 ==>
              numPages[j, s] == Count(pages, sizes[j], s)
    ensures n == |pages|
  {
    hide Count, CountBefore;
    ghost var sockets := numPages.Length1;
    n := 0;
    CountBeforeEdges(pages, sizes, sockets, 0);
    for j := 0 to numPages.Length0
      invariant n == CountBefore(pages, sizes, sockets, j, 0)
    {
      for s := 0 to numPages.Length1
        invariant n == CountBefore(pages, sizes, sockets, j, s)
      {
        CountBeforeNext(pages, sizes, sockets, j, s);
        n := n + numPages[j, s];
      }
      CountBeforeEdges(pages, sizes, sockets, j);
    }
  }

  /** One size and socket of `unmap_unneeded_hugepages`: `unlinkOk` answers the unlink of each page's file. */
  method UnmapClass(tbl: array<Page>, size: nat, s: nat, keep: nat, unlinkOk: nat -> bool) returns (ok: bool)
    modifies tbl
    ensures ok <==>
              forall i :: 0 <= i < tbl.Length && InClass(old(tbl[i]), size, s) && Rank(old(tbl[..]), i) >= keep ==>
                unlinkOk(i)
    ensures forall i :: 0 <= i < tbl.Length && !InClass(old(tbl[i]), size, s) ==> tbl[i] == old(tbl[i])
    ensures ok ==> forall i :: 0 <= i < tbl.Length && InClass(old(tbl[i]), size, s) ==>
                     tbl[i] == if Rank(old(tbl[..]), i) < keep then old(tbl[i]) else old(tbl[i]).(va := 0)
  {
    hide Count;
    ghost var pages := tbl[..];
    CountNothing();
    var pagesFound := 0;
    for page := 0 to tbl.Length
      invariant pagesFound == if Count(pages[..page], size, s) < keep then Count(pages[..page], size, s) else keep
      invariant forall i :: page <= i < tbl.Length ==> tbl[i] == pages[i]
      invariant forall i :: 0 <= i < page && !InClass(pages[i], size, s) ==> tbl[i] == pages[i]
      invariant forall i :: 0 <= i < page && InClass(pages[i], size, s) ==>
                  tbl[i] == if Rank(pages, i) < keep then pages[i] else pages[i].(va := 0)
      invariant forall i :: 0 <= i < page && InClass(pages[i], size, s) && Rank(pages, i) >= keep ==> unlinkOk(i)
    {
      assert pages[..page + 1] == pages[..page] + [pages[page]];
      CountAppend(pages[..page], pages[page], size, s);
      if tbl[page].size == size && tbl[page].socket == s {
        assert Rank(pages, page) == Count(pages[..page], size, s);
        if pagesFound == keep {
          tbl[page] := tbl[page].(va := 0);
          if !unlinkOk(page) {
            return false;
          }
        } else {
          pagesFound := pagesFound + 1;
        }
      }
    }
    return true;
  }

  lemma {:induction false} CountSame(a: seq<Page>, b: seq<Page>, size: nat, s: nat)
    requires |a| == |b| && forall i :: 0 <= i < |a| ==> InClass(a[i], size, s) == InClass(b[i], size, s)
    ensures Count(a, size, s) == Count(b, size, s)
    decreases |a|
  {
    if a != [] {
      CountSame(a[..|a| - 1], b[..|b| - 1], size, s);
    }
  }

  lemma RankSame(a: seq<Page>, b: seq<Page>, i: nat)
    requires i < |a| == |b| && forall k :: 0 <= k < |a| ==> a[k].size == b[k].size && a[k].socket == b[k].socket
    ensures Rank(a, i) == Rank(b, i)
  {
    CountSame(a[..i], b[..i], a[i].size, a[i].socket);
  }

  /** `unmap_unneeded_hugepages`: exactly the pages beyond their class's count lose their address, and it
      fails exactly when the file of one of those cannot be unlinked. */
  method UnmapUnneeded(tbl: array<Page>, sizes: seq<nat>, numPages: array2<nat>, used: array2<nat>,
                       unlinkOk: nat -> bool)
    returns (ok: bool)
    requires used.Length0 == numPages.Length0 == |sizes| && used.Length1 == numPages.Length1
    requires Distinct(sizes) && Classified(tbl[..], sizes, used.Length1)
    requires forall j, s :: 0 <= j < |sizes| && 0 <= s < numPages.Length1 ==>
              numPages[j, s] == Count(tbl[..], sizes[j], s)
    modifies tbl
    ensures ok <==>
              forall i :: 0 <= i < tbl.Length && !Survives(old(tbl[..]), i, sizes, used.Length1, Limits(used)) ==>
                unlinkOk(i)
    ensures ok ==>
              forall i :: 0 <= i < tbl.Length ==> tbl[i] == KeptPage(old(tbl[..]), i, sizes, used.Length1, Limits(used))
  {
    hide Count, IndexOf, Cleaned, Survives, KeptPage, Before;
    ghost var pages, limits := tbl[..], Limits(used);
    var sockets := used.Length1;
    var nrpages := TotalPages(numPages, pages, sizes);
    assert nrpages == tbl.Length;
    CleanedStart(pages, sizes, sockets, limits, unlinkOk);
    for j := 0 to |sizes|
      invariant Cleaned(pages, tbl[..], sizes, sockets, limits, unlinkOk, j, 0)
    {
      for s := 0 to sockets
        invariant Cleaned(pages, tbl[..], sizes, sockets, limits, unlinkOk, j, s)
      {
        ghost var current := tbl[..];
        CleanedRanks(pages, current, sizes, sockets, limits, unlinkOk, j, s);
        var unmapped := UnmapClass(tbl, sizes[j], s, used[j, s], unlinkOk);
        if !unmapped {
          CleanedFails(pages, current, sizes, sockets, limits, unlinkOk, j, s);
          return false;
        }
        CleanedClass(pages, current, tbl[..], sizes, sockets, limits, unlinkOk, j, s);
      }
      CleanedSize(pages, tbl[..], sizes, sockets, limits, unlinkOk, j);
    }
    CleanedAll(pages, tbl[..], sizes, sockets, limits, unlinkOk);
    return true;
  }

  /** The classes before size `j` and socket `s` have lost their surplus pages, and all unlinks went well. */
  ghost predicate Cleaned(pages: seq<Page>, now: seq<Page>, sizes: seq<nat>, sockets: nat, limits: seq<seq<nat>>,
                          unlinkOk: nat -> bool, j: nat, s: nat)
    requires Classified(pages, sizes, sockets) && Shape(limits, sizes, sockets)
  {
    && |now| == |pages|
    && (forall i :: 0 <= i < |pages| ==>
          now[i] == if Before(pages[i], sizes, j, s) then KeptPage(pages, i, sizes, sockets, limits) else pages[i])
    && (forall i :: 0 <= i < |pages| && Before(pages[i], sizes, j, s) && !Survives(pages, i, sizes, sockets, limits) ==>
          unlinkOk(i))
  }

  lemma CleanedStart(pages: seq<Page>, sizes: seq<nat>, sockets: nat, limits: seq<seq<nat>>, unlinkOk: nat -> bool)
    requires Classified(pages, sizes, sockets) && Shape(limits, sizes, sockets)
    ensures Cleaned(pages, pages, sizes, sockets, limits, unlinkOk, 0, 0)
  {
  }

  lemma CleanedRanks(pages: seq<Page>, now: seq<Page>, sizes: seq<nat>, sockets: nat, limits: seq<seq<nat>>,
                     unlinkOk: nat -> bool, j: nat, s: nat)
    requires Classified(pages, sizes, sockets) && Shape(limits, sizes, sockets)
    requires Cleaned(pages, now, sizes, sockets, limits, unlinkOk, j, s)
    ensures |now| == |pages|
    ensures forall i :: 0 <= i < |pages| ==> now[i].size == pages[i].size && now[i].socket == pages[i].socket
    ensures forall i :: 0 <= i < |pages| ==> Rank(now, i) == Rank(pages, i)
  {
    hide Count, IndexOf, Survives;
    forall i | 0 <= i < |pages|
      ensures Rank(now, i) == Rank(pages, i)
    {
      RankSame(now, pages, i);
    }
  }

  /** The class of size `j` and socket `s`, in terms of the order of the loops and of what survives. */
  lemma ClassAt(pages: seq<Page>, sizes: seq<nat>, sockets: nat, limits: seq<seq<nat>>, j: nat, s: nat, i: nat)
    requires Classified(pages, sizes, sockets) && Shape(limits, sizes, sockets) && Distinct(sizes)
    requires j < |sizes| && s < sockets && i < |pages|
    ensures Before(pages[i], sizes, j, s + 1) <==> Before(pages[i], sizes, j, s) || InClass(pages[i], sizes[j], s)
    ensures InClass(pages[i], sizes[j], s) ==> !Before(pages[i], sizes, j, s)
    ensures InClass(pages[i], sizes[j], s) ==>
              (Survives(pages, i, sizes, sockets, limits) <==> Rank(pages, i) < limits[j][s])
  {
    hide Count, IndexOf;
    IndexOfDistinct(sizes, j);
  }

  lemma CleanedClass(pages: seq<Page>, current: seq<Page>, now: seq<Page>, sizes: seq<nat>, sockets: nat,
                     limits: seq<seq<nat>>, unlinkOk: nat -> bool, j: nat, s: nat)
    requires Classified(pages, sizes, sockets) && Shape(limits, sizes, sockets)
    requires Distinct(sizes) && j < |sizes| && s < sockets
    requires Cleaned(pages, current, sizes, sockets, limits, unlinkOk, j, s) && |now| == |current|
    requires forall i :: 0 <= i < |now| && InClass(current[i], sizes[j], s) && Rank(current, i) >= limits[j][s] ==>
              unlinkOk(i)
    requires forall i :: 0 <= i < |now| && !InClass(current[i], sizes[j], s) ==> now[i] == current[i]
    requires forall i :: 0 <= i < |now| && InClass(current[i], sizes[j], s) ==>
               now[i] == if Rank(current, i) < limits[j][s] then current[i] else current[i].(va := 0)
    ensures Cleaned(pages, now, sizes, sockets, limits, unlinkOk, j, s + 1)
  {
    hide Rank, Survives, Before, IndexOf;
    CleanedRanks(pages, current, sizes, sockets, limits, unlinkOk, j, s);
    forall i | 0 <= i < |pages|
      ensures now[i]
           == if Before(pages[i], sizes, j, s + 1) then KeptPage(pages, i, sizes, sockets, limits) else pages[i]
      ensures Before(pages[i], sizes, j, s + 1) && !Survives(pages, i, sizes, sockets, limits) ==> unlinkOk(i)
    {
      ClassAt(pages, sizes, sockets, limits, j, s, i);
    }
  }

  lemma CleanedFails(pages: seq<Page>, current: seq<Page>, sizes: seq<nat>, sockets: nat, limits: seq<seq<nat>>,
                     unlinkOk: nat -> bool, j: nat, s: nat)
    requires Classified(pages, sizes, sockets) && Shape(limits, sizes, sockets)
    requires Distinct(sizes) && j < |sizes| && s < sockets
    requires Cleaned(pages, current, sizes, sockets, limits, unlinkOk, j, s)
    requires exists i ::
               && 0 <= i < |current| && InClass(current[i], sizes[j], s)
               && Rank(current, i) >= limits[j][s] && !unlinkOk(i)
    ensures exists i :: 0 <= i < |pages| && !Survives(pages, i, sizes, sockets, limits) && !unlinkOk(i)
  {
    hide Rank, Survives, Before, IndexOf;
    CleanedRanks(pages, current, sizes, sockets, limits, unlinkOk, j, s);
    var i :| 0 <= i < |current| && InClass(current[i], sizes[j], s) && Rank(current, i) >= limits[j][s] && !unlinkOk(i);
    ClassAt(pages, sizes, sockets, limits, j, s, i);
  }

  lemma CleanedSize(pages: seq<Page>, now: seq<Page>, sizes: seq<nat>, sockets: nat, limits: seq<seq<nat>>,
                    unlinkOk: nat -> bool, j: nat)
    requires Classified(pages, sizes, sockets) && Shape(limits, sizes, sockets)
    requires Cleaned(pages, now, sizes, sockets, limits, unlinkOk, j, sockets)
    ensures Cleaned(pages, now, sizes, sockets, limits, unlinkOk, j + 1, 0)
  {
    hide Survives, KeptPage, IndexOf;
    assert forall i :: 0 <= i < |pages| ==> Before(pages[i], sizes, j + 1, 0) == Before(pages[i], sizes, j, sockets);
  }

  lemma CleanedAll(pages: seq<Page>, now: seq<Page>, sizes: seq<nat>, sockets: nat, limits: seq<seq<nat>>,
                   unlinkOk: nat -> bool)
    requires Classified(pages, sizes, sockets) && Shape(limits, sizes, sockets)
    requires Cleaned(pages, now, sizes, sockets, limits, unlinkOk, |sizes|, 0)
    ensures |now| == |pages|
    ensures forall i :: 0 <= i < |pages| ==> now[i] == KeptPage(pages, i, sizes, sockets, limits)
    ensures forall i :: 0 <= i < |pages| && !Survives(pages, i, sizes, sockets, limits) ==> unlinkOk(i)
  {
    hide Survives, KeptPage, IndexOf;
    assert forall i :: 0 <= i < |pages| ==> Before(pages[i], sizes, |sizes|, 0);
  }

  // ---------- What is left ----------

  function Active(pages: seq<Page>): (a: seq<Page>)
    ensures |a| <= |pages| && forall i :: 0 <= i < |a| ==> a[i] in pages && a[i].va != 0
  {
    if pages == [] then []
    else Active(pages[..|pages| - 1]) + if pages[|pages| - 1].va != 0 then [pages[|pages| - 1]] else []
  }

  function Kept(pages: seq<Page>, sizes: seq<nat>, sockets: nat, limits: seq<seq<nat>>): (kept: seq<Page>)
    requires Classified(pages, sizes, sockets) && Shape(limits, sizes, sockets)
    ensures |kept| == |pages| && forall i :: 0 <= i < |pages| ==> kept[i] == KeptPage(pages, i, sizes, sockets, limits)
  {
    seq(|pages|, i requires 0 <= i < |pages| => KeptPage(pages, i, sizes, sockets, limits))
  }

  /** Of every class, the surviving pages among the first `n` are as many as it has there, up to its limit. */
  lemma {:induction false} SurvivorsSoFar(pages: seq<Page>, sizes: seq<nat>, sockets: nat, limits: seq<seq<nat>>,
                                          n: nat, j: nat, s: nat)
    requires Distinct(sizes) && Classified(pages, sizes, sockets) && Shape(limits, sizes, sockets)
    requires n <= |pages| && j < |sizes| && s < sockets && forall i :: 0 <= i < |pages| ==> pages[i].va != 0
    ensures Count(Active(Kept(pages, sizes, sockets, limits)[..n]), sizes[j], s)
         == Min(Count(pages[..n], sizes[j], s), limits[j][s])
    decreases n
  {
    hide Count, Active, IndexOf, KeptPage;
    var kept := Kept(pages, sizes, sockets, limits);
    if n == 0 {
      ActiveNothing(kept[..0]);
      CountNothing();
    } else {
      SurvivorsSoFar(pages, sizes, sockets, limits, n - 1, j, s);
      ActiveNext(kept, n - 1);
      CountNext(pages, n - 1, sizes[j], s);
      OneMoreSurvivor(pages, sizes, sockets, limits, n - 1, j, s);
      CountAppend(Active(kept[..n - 1]), kept[n - 1], sizes[j], s);
    }
  }

  lemma ActiveNothing(pages: seq<Page>)
    requires pages == []
    ensures Active(pages) == []
  {
  }

  lemma ActiveNext(pages: seq<Page>, n: nat)
    requires n < |pages|
    ensures Active(pages[..n + 1]) == if pages[n].va != 0 then Active(pages[..n]) + [pages[n]] else Active(pages[..n])
  {
    assert pages[..n + 1][..n] == pages[..n];
  }

  lemma CountNext(pages: seq<Page>, n: nat, size: nat, s: nat)
    requires n < |pages|
    ensures Count(pages[..n + 1], size, s) == Count(pages[..n], size, s) + if InClass(pages[n], size, s) then 1 else 0
  {
    assert pages[..n + 1][..n] == pages[..n];
  }

  /** A mapped page of a class survives exactly while the class has not reached its limit. */
  lemma OneMoreSurvivor(pages: seq<Page>, sizes: seq<nat>, sockets: nat, limits: seq<seq<nat>>, i: nat, j: nat, s: nat)
    requires Distinct(sizes) && Classified(pages, sizes, sockets) && Shape(limits, sizes, sockets)
    requires i < |pages| && j < |sizes| && s < sockets && pages[i].va != 0
    ensures var kept := KeptPage(pages, i, sizes, sockets, limits);
            && InClass(kept, sizes[j], s) == InClass(pages[i], sizes[j], s)
            && (InClass(kept, sizes[j], s) ==> (kept.va != 0 <==> Count(pages[..i], sizes[j], s) < limits[j][s]))
  {
    hide Count, IndexOf;
    IndexOfDistinct(sizes, j);
  }

  lemma ActiveClassified(pages: seq<Page>, sizes: seq<nat>, sockets: nat)
    requires Classified(pages, sizes, sockets)
    ensures Classified(Active(pages), sizes, sockets)
  {
    hide Active;
  }

  /** After unmapping, each class keeps exactly its limit, and the active pages add up to the limits. */
  lemma SurvivorCounts(pages: seq<Page>, sizes: seq<nat>, sockets: nat, limits: seq<seq<nat>>, totals: seq<nat>)
    requires Distinct(sizes) && Classified(pages, sizes, sockets) && Shape(limits, sizes, sockets)
    requires forall i :: 0 <= i < |pages| ==> pages[i].va != 0
    requires forall j, s :: 0 <= j < |sizes| && 0 <= s < sockets ==> limits[j][s] <= Count(pages, sizes[j], s)
    requires |totals| == sockets && forall s :: 0 <= s < sockets ==> totals[s] == Sum(LimitColumn(limits, sockets, s))
    ensures forall j, s :: 0 <= j < |sizes| && 0 <= s < sockets ==>
              Count(Active(Kept(pages, sizes, sockets, limits)), sizes[j], s) == limits[j][s]
    ensures |Active(Kept(pages, sizes, sockets, limits))| == Sum(totals)
  {
    hide Count, Active, Sum, IndexOf;
    var kept := Kept(pages, sizes, sockets, limits);
    var a := Active(kept);
    assert kept[..|pages|] == kept && pages[..|pages|] == pages;
    forall j, s | 0 <= j < |sizes| && 0 <= s < sockets
      ensures Count(a, sizes[j], s) == limits[j][s]
    {
      SurvivorsSoFar(pages, sizes, sockets, limits, |pages|, j, s);
    }
    ActiveClassified(kept, sizes, sockets);
    CountPartition(a, sizes, sockets);
    forall s | 0 <= s < sockets
      ensures CountTotals(a, sizes, sockets)[s] == totals[s]
    {
      assert CountColumn(a, sizes, s) == LimitColumn(limits, sockets, s);
    }
    assert CountTotals(a, sizes, sockets) == totals;
  }

  function Cleared(n: nat): (c: seq<Page>)
    ensures |c| == n && forall i :: 0 <= i < n ==> c[i] == CLEARED
  {
    seq(n, i => CLEARED)
  }

  /** `copy_hugepages_to_shared_mem`: the active pages in table order, then cleared entries; it fails
      exactly when they do not fit. */
  method CopyToShared(dst: array<Page>, src: array<Page>) returns (ok: bool)
    requires dst != src && forall i :: 0 <= i < dst.Length ==> dst[i] == CLEARED
    modifies dst
    ensures ok <==> |Active(src[..])| <= dst.Length
    ensures ok ==> dst[..] == Active(src[..]) + Cleared(dst.Length - |Active(src[..])|)
  {
    var dstPos := 0;
    for srcPos := 0 to src.Length
      invariant dstPos == |Active(src[..srcPos])| <= dst.Length
      invariant dst[..dstPos] == Active(src[..srcPos])
      invariant forall i :: dstPos <= i < dst.Length ==> dst[i] == CLEARED
    {
      assert src[..srcPos + 1][..srcPos] == src[..srcPos];
      if src[srcPos].va != 0 {
        if dstPos == dst.Length {
          ActiveGrows(src[..], srcPos + 1);
          return false;
        }
        dst[dstPos] := src[srcPos];
        dstPos := dstPos + 1;
      }
    }
    assert src[..src.Length] == src[..];
    return true;
  }

  lemma {:induction false} ActiveGrows(pages: seq<Page>, n: nat)
    requires n <= |pages|
    ensures |Active(pages[..n])| <= |Active(pages)|
    decreases |pages| - n
  {
    if n < |pages| {
      assert pages[..n + 1][..n] == pages[..n];
      ActiveGrows(pages, n + 1);
    } else {
      assert pages[..n] == pages;
    }
  }
}
