/** From the page table of a primary process, remapped size by size, to the segments a secondary process
    attaches to: `rte_eal_hugepage_init` from the remap pass on, followed by the mapping loop of
    `rte_eal_hugepage_attach`
    (deps/dpdk-extras/dpdk-patches-17.08/eal_memory.c). */
module HugepageInit {
  import opened Bits
  import opened PageCalc
  import opened HugepageTable
  import opened Memseg
  import opened Options
  import Remap

  /** The page sizes with the recounted pages of each socket. */
  ghost function InfoOf(pages: seq<Page>, sizes: seq<nat>, mounted: seq<bool>, sockets: nat): (info: seq<PageInfo>)
    requires |mounted| == |sizes|
    ensures |info| == |sizes|
    ensures forall j :: 0 <= j < |sizes| ==>
              info[j].size == sizes[j] && info[j].mounted == mounted[j] && |info[j].pages| == sockets
    ensures forall j, s :: 0 <= j < |sizes| && 0 <= s < sockets ==> info[j].pages[s] == Count(pages, sizes[j], s)
  {
    seq(|sizes|, j requires 0 <= j < |sizes| =>
      PageInfo(sizes[j], mounted[j], seq(sockets, s requires 0 <= s < sockets => Count(pages, sizes[j], s))))
  }

  method ReadInfo(sizes: seq<nat>, mounted: seq<bool>, numPages: array2<nat>,
                  ghost pages: seq<Page>) returns (info: seq<PageInfo>)
    requires |mounted| == |sizes| == numPages.Length0
    requires forall j, s :: 0 <= j < |sizes| && 0 <= s < numPages.Length1 ==>
              numPages[j, s] == Count(pages, sizes[j], s)
    ensures info == InfoOf(pages, sizes, mounted, numPages.Length1)
  {
    hide Count;
    info := [];
    for j := 0 to |sizes|
      invariant info == InfoOf(pages, sizes, mounted, numPages.Length1)[..j]
    {
      var row: seq<nat> := [];
      for s := 0 to numPages.Length1
        invariant |row| == s && forall t :: 0 <= t < s ==> row[t] == numPages[j, t]
      {
        row := row + [numPages[j, s]];
      }
      assert row == InfoOf(pages, sizes, mounted, numPages.Length1)[j].pages;
      info := info + [PageInfo(sizes[j], mounted[j], row)];
    }
  }

  /** A table as the remap pass leaves it: every page mapped, of a known size, on a known socket. */
  predicate Ready(pages: seq<Page>, sizes: seq<nat>, mounted: seq<bool>, sockets: nat) {
    && Distinct(sizes) && |mounted| == |sizes| && (forall j :: 0 <= j < |sizes| ==> sizes[j] > 0)
    && Classified(pages, sizes, sockets) && Addressable(pages)
    && (forall i :: 0 <= i < |pages| ==> pages[i].va != 0)
  }

  // ---------- The remap pass makes the table ready ----------

  /** Pages of one size whose sockets and physical addresses have been found. */
  predicate Located(pages: seq<Page>, sz: nat, sockets: nat) {
    forall p :: 0 <= p < |pages| ==> pages[p].size == sz && pages[p].socket < sockets && pages[p].phys < WORD
  }

  /** All of the pages have been given an address in the address space, and nothing else has changed. */
  predicate Remapped(pages: seq<Page>, now: seq<Page>, sz: nat) {
    && |now| == |pages|
    && (forall p :: 0 <= p < |pages| ==>
          0 < now[p].va && now[p].va + sz <= WORD && now[p] == pages[p].(va := now[p].va))
  }

  lemma CompleteRemap(pages: seq<Page>, now: seq<Page>, sz: nat, hints: seq<nat>, place: (nat, nat) -> Option<nat>,
                      lockOk: nat -> bool)
    requires Remap.MappedAt(pages, now, hints, place, lockOk) && |hints| == |pages| && Remap.Usable(place, sz)
    ensures Remapped(pages, now, sz)
  {
  }

  /** The remap step for one page size: it fails unless every page is mapped. With a generous kernel, physically
      adjacent pages of one socket then continue each other. */
  method RemapSize(tbl: array<Page>, sz: nat, ghost sockets: nat, openOk: nat -> bool, probe: nat -> nat -> Option<nat>,
                   place: (nat, nat) -> Option<nat>, lockOk: nat -> bool)
    returns (ok: bool)
    requires Remap.PageSize(sz) && (forall i: nat :: Remap.Sane(probe(i))) && Remap.Usable(place, sz)
    requires Located(tbl[..], sz, sockets)
    modifies tbl
    ensures (forall i: nat, hint: nat :: place(i, hint).Some?) && (forall i: nat :: lockOk(i)) ==> ok
    ensures ok ==> Remapped(old(tbl[..]), tbl[..], sz)
    ensures ok ==> Remap.LaidOut(old(tbl[..]), tbl[..], sz, openOk, probe, place, lockOk)
    ensures ok && Remap.Generous(sz, Remap.Bytes(sz, tbl.Length) + sz, openOk, probe, place) ==> InRuns(tbl[..], sz)
  {
    hide IsPow2, Remap.Sane, Remap.Usable, Remap.Tiled, Remap.Hinted, Remap.HintIn, Remap.Bytes, Remap.Generous,
         Remap.MappedAt, Remap.Linked, Remap.AllReserved, Remapped, InRuns, Located;
    ghost var pages := tbl[..];
    var mapped;
    ghost var areas, hints, end;
    mapped, areas, hints, end := Remap.RemapHugepages(tbl, sz, openOk, probe, place, lockOk);
    ok := mapped == tbl.Length;
    if ok {
      CompleteRemap(pages, tbl[..], sz, hints, place, lockOk);
      assert Remap.Layout(pages, tbl[..], sz, openOk, probe, place, lockOk, areas, hints);
      if Remap.Linked(pages, tbl[..], sz, tbl.Length) {
        LinkedRuns(pages, tbl[..], sz, sockets);
      }
    }
  }

  /** Pages that follow each other physically, on one socket, belong to one segment. */
  predicate InRuns(pages: seq<Page>, sz: nat) {
    forall p :: 0 < p < |pages| && pages[p].socket == pages[p - 1].socket && Remap.Adjacent(pages, sz, p) ==>
      Continues(pages[p - 1], pages[p]) && SegId(pages, p - 1) == SegId(pages, p)
  }

  lemma LinkedRuns(pages: seq<Page>, now: seq<Page>, sz: nat, sockets: nat)
    requires Located(pages, sz, sockets) && Remapped(pages, now, sz) && Remap.Linked(pages, now, sz, |now|)
    requires sz < WORD
    ensures InRuns(now, sz)
  {
    forall p | 0 < p < |now| && now[p].socket == now[p - 1].socket && Remap.Adjacent(now, sz, p)
      ensures Continues(now[p - 1], now[p])
    {
      assert Remap.Adjacent(pages, sz, p);
      SmallMod(sz, WORD);
    }
  }

  function Join(parts: seq<seq<Page>>): seq<Page> {
    if parts == [] then [] else parts[0] + Join(parts[1..])
  }

  lemma {:induction false} JoinReady(before: seq<seq<Page>>, now: seq<seq<Page>>, parts: seq<nat>, sizes: seq<nat>,
                                     sockets: nat)
    requires |before| == |now| == |parts| && forall j :: 0 <= j < |parts| ==> parts[j] in sizes && 0 < parts[j] < WORD
    requires forall j :: 0 <= j < |parts| ==>
              Located(before[j], parts[j], sockets) && Remapped(before[j], now[j], parts[j])
    ensures Classified(Join(now), sizes, sockets) && Addressable(Join(now))
    ensures forall i :: 0 <= i < |Join(now)| ==> Join(now)[i].va != 0
    decreases |parts|
  {
    if parts != [] {
      JoinReady(before[1..], now[1..], parts[1..], sizes, sockets);
    }
  }

  /** The table joined from one remapped part for every page size is ready. */
  lemma RemapReady(before: seq<seq<Page>>, now: seq<seq<Page>>, sizes: seq<nat>, mounted: seq<bool>, sockets: nat)
    requires |before| == |now| == |sizes| == |mounted| && Distinct(sizes)
    requires forall j :: 0 <= j < |sizes| ==> 0 < sizes[j] < WORD
    requires forall j :: 0 <= j < |sizes| ==>
              Located(before[j], sizes[j], sockets) && Remapped(before[j], now[j], sizes[j])
    ensures Ready(Join(now), sizes, mounted, sockets)
  {
    hide Located, Remapped, Classified;
    JoinReady(before, now, sizes, sizes, sockets);
  }

  ghost function Contents(tables: seq<array<Page>>): (parts: seq<seq<Page>>)
    reads tables
    ensures |parts| == |tables| && forall j :: 0 <= j < |tables| ==> parts[j] == tables[j][..]
  {
    seq(|tables|, j requires 0 <= j < |tables| reads tables => tables[j][..])
  }

  /** The kernel maps and locks every page somewhere. */
  ghost predicate Granting(place: nat -> (nat, nat) -> Option<nat>, lockOk: nat -> nat -> bool) {
    && (forall j: nat, i: nat, hint: nat :: place(j)(i, hint).Some?)
    && (forall j: nat, i: nat :: lockOk(j)(i))
  }

  /** Every part has been remapped completely, to the addresses that the answers of the kernel call for. */
  ghost predicate Remaps(before: seq<seq<Page>>, parts: seq<seq<Page>>, sizes: seq<nat>, openOk: nat -> nat -> bool,
                         probe: nat -> nat -> nat -> Option<nat>, place: nat -> (nat, nat) -> Option<nat>,
                         lockOk: nat -> nat -> bool) {
    && |before| == |parts| == |sizes|
    && forall j :: 0 <= j < |parts| ==>
         && Remapped(before[j], parts[j], sizes[j])
         && Remap.LaidOut(before[j], parts[j], sizes[j], openOk(j), probe(j), place(j), lockOk(j))
  }

  lemma RemapsUnique(before: seq<seq<Page>>, x: seq<seq<Page>>, y: seq<seq<Page>>, sizes: seq<nat>,
                     openOk: nat -> nat -> bool, probe: nat -> nat -> nat -> Option<nat>,
                     place: nat -> (nat, nat) -> Option<nat>, lockOk: nat -> nat -> bool)
    requires Remaps(before, x, sizes, openOk, probe, place, lockOk)
    requires Remaps(before, y, sizes, openOk, probe, place, lockOk)
    ensures x == y
  {
    hide Remapped, Remap.LaidOut;
    forall j | 0 <= j < |x|
      ensures x[j] == y[j]
    {
      Remap.LayoutUnique(before[j], x[j], y[j], sizes[j], openOk(j), probe(j), place(j), lockOk(j));
    }
  }

  /** The loop over the page sizes: when it succeeds, the whole table is ready. */
  method RemapSizes(tables: seq<array<Page>>, sizes: seq<nat>, ghost mounted: seq<bool>, ghost sockets: nat,
                    openOk: nat -> nat -> bool, probe: nat -> nat -> nat -> Option<nat>,
                    place: nat -> (nat, nat) -> Option<nat>, lockOk: nat -> nat -> bool)
    returns (ok: bool)
    requires |tables| == |sizes| == |mounted| && Distinct(sizes)
    requires forall j, k :: 0 <= j < k < |tables| ==> tables[j] != tables[k]
    requires forall j :: 0 <= j < |sizes| ==> Remap.PageSize(sizes[j]) && Remap.Usable(place(j), sizes[j])
    requires forall j: nat, i: nat :: Remap.Sane(probe(j)(i))
    requires forall j :: 0 <= j < |tables| ==> Located(tables[j][..], sizes[j], sockets)
    modifies tables
    ensures Granting(place, lockOk) ==> ok
    ensures ok ==> Remaps(old(Contents(tables)), Contents(tables), sizes, openOk, probe, place, lockOk)
    ensures ok ==> Ready(Join(Contents(tables)), sizes, mounted, sockets)
  {
    hide Granting, Located, Remapped, Remap.Sane, Remap.Usable, Remap.PageSize, Remap.Generous, Remap.LaidOut, InRuns,
         Ready;
    ghost var before := Contents(tables);
    for j := 0 to |tables|
      invariant forall k :: 0 <= k < j ==> Remapped(before[k], tables[k][..], sizes[k])
      invariant forall k :: 0 <= k < j ==>
                  Remap.LaidOut(before[k], tables[k][..], sizes[k], openOk(k), probe(k), place(k), lockOk(k))
      invariant forall k :: j <= k < |tables| ==> tables[k][..] == before[k]
    {
      GrantingAt(place, lockOk, j);
      ok := RemapSize(tables[j], sizes[j], sockets, openOk(j), probe(j), place(j), lockOk(j));
      if !ok {
        return;
      }
    }
    forall j | 0 <= j < |sizes|
      ensures 0 < sizes[j] < WORD
    {
      SizeInWord(sizes[j]);
    }
    RemapReady(before, Contents(tables), sizes, mounted, sockets);
    ok := true;
  }

  lemma GrantingAt(place: nat -> (nat, nat) -> Option<nat>, lockOk: nat -> nat -> bool, j: nat)
    ensures Granting(place, lockOk) ==>
              (forall i: nat, hint: nat :: place(j)(i, hint).Some?) && forall i: nat :: lockOk(j)(i)
  {
  }

  lemma SizeInWord(sz: nat)
    requires Remap.PageSize(sz)
    ensures 0 < sz < WORD
  {
    Remap.Positive(sz);
  }

  // ---------- Selecting the pages ----------

  lemma LimitTotals(used: array2<nat>)
    ensures forall s :: 0 <= s < used.Length1 ==> PageCounts(used)[s] == Sum(LimitColumn(Limits(used), used.Length1, s))
  {
    hide Sum;
    forall s | 0 <= s < used.Length1
      ensures Column(used, s) == LimitColumn(Limits(used), used.Length1, s)
    {
    }
  }

  /** `shared` holds the `nr` pages of `pages` that the limits let survive, in table order, then cleared
      entries; of each size and socket exactly the limit survives. */
  ghost predicate Selected(pages: seq<Page>, sizes: seq<nat>, sockets: nat, limits: seq<seq<nat>>, shared: seq<Page>,
                           nr: int) {
    && Classified(pages, sizes, sockets) && Shape(limits, sizes, sockets) && |shared| == |pages|
    && var kept := Active(Kept(pages, sizes, sockets, limits));
       && nr == |kept|
       && shared == kept + Cleared(|pages| - |kept|)
       && (forall j, s :: 0 <= j < |sizes| && 0 <= s < sockets ==> Count(kept, sizes[j], s) == limits[j][s])
  }

  /** The page calculation found room for the request. */
  ghost predicate RequestFits(pages: seq<Page>, sizes: seq<nat>, mounted: seq<bool>, forceSockets: bool, total: nat,
                              memory: seq<nat>)
    requires Ready(pages, sizes, mounted, |memory|)
  {
    Fits(InfoOf(pages, sizes, mounted, |memory|), forceSockets, total, memory)
  }

  /** The limits of every socket serve `request`: what was asked of the socket, or the automatic split. */
  ghost predicate Granted(pages: seq<Page>, sizes: seq<nat>, mounted: seq<bool>, forceSockets: bool, total: nat,
                          cpu: seq<nat>, memory: seq<nat>, limits: seq<seq<nat>>, request: seq<nat>)
    requires Ready(pages, sizes, mounted, |memory|)
  {
    && Shape(limits, sizes, |memory|) && |request| == |memory|
    && (if forceSockets then request == memory
        else Spread(InfoOf(pages, sizes, mounted, |memory|), total, cpu, request))
    && (forall s :: 0 <= s < |request| ==>
          Allots(InfoOf(pages, sizes, mounted, |memory|), s, request[s], LimitColumn(limits, |memory|, s)))
  }

  lemma ColumnLimits(used: array2<nat>, s: nat)
    requires s < used.Length1
    ensures LimitColumn(Limits(used), used.Length1, s) == Column(used, s)
  {
  }

  ghost predicate AllUnlink(unlinkOk: nat -> bool) {
    forall i: nat :: unlinkOk(i)
  }

  lemma UsedWithin(info: seq<PageInfo>, used: array2<nat>, request: seq<nat>)
    requires used.Length0 == |info| && |request| == used.Length1 && WellFormed(info, used.Length1)
    requires forall s :: 0 <= s < |request| ==> Allots(info, s, request[s], Column(used, s))
    ensures forall j, s :: 0 <= j < |info| && 0 <= s < used.Length1 ==> Limits(used)[j][s] <= info[j].pages[s]
  {
    hide Serves, Greedy;
    forall j, s | 0 <= j < |info| && 0 <= s < used.Length1
      ensures Limits(used)[j][s] <= info[j].pages[s]
    {
      ServesWithin(info, s, request[s], Column(used, s), j);
    }
  }

  lemma Selection(pages: seq<Page>, sizes: seq<nat>, mounted: seq<bool>, used: array2<nat>)
    requires Ready(pages, sizes, mounted, used.Length1) && used.Length0 == |sizes|
    requires forall j, s :: 0 <= j < |sizes| && 0 <= s < used.Length1 ==>
              Limits(used)[j][s] <= Count(pages, sizes[j], s)
    ensures var kept := Active(Kept(pages, sizes, used.Length1, Limits(used)));
            Selected(pages, sizes, used.Length1, Limits(used), kept + Cleared(|pages| - |kept|), Sum(PageCounts(used)))
  {
    hide Count, Sum, Active, IndexOf;
    LimitTotals(used);
    SurvivorCounts(pages, sizes, used.Length1, Limits(used), PageCounts(used));
  }

  /** Recount, page calculation, unmapping and copying: the selection fails only for a request that does not
      fit or a file that cannot be unlinked. */
  method SelectPages(tbl: array<Page>, hp: array<Page>, sizes: seq<nat>, mounted: seq<bool>, memory: array<nat>,
                     total: nat, forceSockets: bool, cpu: seq<nat>, unlinkOk: nat -> bool)
    returns (ok: bool, ghost limits: seq<seq<nat>>, nr: int, ghost request: seq<nat>)
    requires tbl != hp && tbl.Length == hp.Length && Ready(tbl[..], sizes, mounted, memory.Length)
    requires forall i :: 0 <= i < hp.Length ==> hp[i] == CLEARED
    requires forceSockets ==> Sum(memory[..]) == total
    requires !forceSockets ==> forall s :: 0 <= s < memory.Length ==> memory[s] == 0
    requires !forceSockets ==> |cpu| == memory.Length && Sum(cpu) > 0
    modifies tbl, hp, memory
    ensures ok ==> RequestFits(old(tbl[..]), sizes, mounted, forceSockets, total, old(memory[..]))
    ensures ok ==> Granted(old(tbl[..]), sizes, mounted, forceSockets, total, cpu, old(memory[..]), limits, request)
    ensures ok ==> Selected(old(tbl[..]), sizes, memory.Length, limits, hp[..], nr)
    ensures !ok && AllUnlink(unlinkOk) ==>
              !RequestFits(old(tbl[..]), sizes, mounted, forceSockets, total, old(memory[..]))
  {
    hide Count, Sum, Active, IndexOf, Allots, Capacity, Fits, Selected, Mounted, CoreShare;
    ghost var pages := tbl[..];
    var sockets := memory.Length;
    var numPages := new nat[|sizes|, sockets];
    Recount(tbl, sizes, numPages);
    var info := ReadInfo(sizes, mounted, numPages, pages);
    var used := new nat[|sizes|, sockets]((j, s) => 0);
    nr, request := CalcNumPagesPerSocket(memory, info, used, total, forceSockets, cpu);
    limits := Limits(used);
    if nr < 0 {
      return false, limits, nr, request;
    }
    forall s | 0 <= s < sockets
      ensures LimitColumn(limits, sockets, s) == Column(used, s)
    {
      ColumnLimits(used, s);
    }
    UsedWithin(info, used, request);
    Selection(pages, sizes, mounted, used);
    ok := UnmapUnneeded(tbl, sizes, numPages, used, unlinkOk);
    if ok {
      assert tbl[..] == Kept(pages, sizes, sockets, limits);
      ok := CopyToShared(hp, tbl);
    }
  }

  lemma ServesWithin(info: seq<PageInfo>, s: nat, request: nat, col: seq<nat>, j: nat)
    requires |col| == |info| && forall k :: 0 <= k < |info| ==> s < |info[k].pages|
    requires j < |col| && Serves(info, s, request, col)
    ensures col[j] <= info[j].pages[s]
  {
  }

  lemma SelectedCompacted(pages: seq<Page>, sizes: seq<nat>, mounted: seq<bool>, sockets: nat, limits: seq<seq<nat>>,
                          shared: seq<Page>, nr: int)
    requires Ready(pages, sizes, mounted, sockets) && Selected(pages, sizes, sockets, limits, shared, nr)
    ensures 0 <= nr <= |shared| && Compacted(shared, nr) && Addressable(shared)
    ensures forall i :: 0 <= i < nr ==> shared[i] in pages
    ensures forall i :: nr <= i < |shared| ==> shared[i] == Page(0, 0, 0, 0, 0, 0)
  {
    hide Count, Active, IndexOf, Survives;
    var all := Kept(pages, sizes, sockets, limits);
    var kept := Active(all);
    forall i | 0 <= i < |kept|
      ensures kept[i] in pages && kept[i].size > 0
    {
      var k :| 0 <= k < |all| && all[k] == kept[i];
      assert kept[i] == pages[k];
    }
  }

  lemma ColumnsEqual(x: seq<seq<nat>>, y: seq<seq<nat>>, sizes: seq<nat>, sockets: nat)
    requires Shape(x, sizes, sockets) && Shape(y, sizes, sockets)
    requires forall s :: 0 <= s < sockets ==> LimitColumn(x, sockets, s) == LimitColumn(y, sockets, s)
    ensures x == y
  {
    forall j, s | 0 <= j < |sizes| && 0 <= s < sockets
      ensures x[j][s] == y[j][s]
    {
      assert LimitColumn(x, sockets, s)[j] == LimitColumn(y, sockets, s)[j];
    }
    forall j | 0 <= j < |sizes|
      ensures x[j] == y[j]
    {
    }
  }

  /** The request and the table leave no choice: one selection serves the request. */
  lemma SelectionUnique(pages: seq<Page>, sizes: seq<nat>, mounted: seq<bool>, forceSockets: bool, total: nat,
                        cpu: seq<nat>, memory: seq<nat>, limits: seq<seq<nat>>, request: seq<nat>, shared: seq<Page>,
                        nr: int, limits': seq<seq<nat>>, request': seq<nat>, shared': seq<Page>, nr': int)
    requires Ready(pages, sizes, mounted, |memory|)
    requires Granted(pages, sizes, mounted, forceSockets, total, cpu, memory, limits, request)
    requires Granted(pages, sizes, mounted, forceSockets, total, cpu, memory, limits', request')
    requires Selected(pages, sizes, |memory|, limits, shared, nr)
    requires Selected(pages, sizes, |memory|, limits', shared', nr')
    ensures limits == limits' && request == request' && shared == shared' && nr == nr'
  {
    hide Count, Sum, Active, IndexOf, Survives, Spread, Serves, Greedy;
    var info := InfoOf(pages, sizes, mounted, |memory|);
    if !forceSockets {
      SpreadUnique(info, total, cpu, request, request');
    }
    forall s | 0 <= s < |memory|
      ensures LimitColumn(limits, |memory|, s) == LimitColumn(limits', |memory|, s)
    {
      var x, y := LimitColumn(limits, |memory|, s), LimitColumn(limits', |memory|, s);
      GreedyUnique(info, s, request[s], x, y, |x|);
      assert x[..|x|] == x && y[..|y|] == y;
    }
    ColumnsEqual(limits, limits', sizes, |memory|);
  }

  /** The primary: selects the pages and describes them in segments. It fails for a request that does not fit,
      a file that cannot be unlinked, or more runs than segment slots. */
  method InitPrimary(tbl: array<Page>, hp: array<Page>, memseg: array<Seg>, sizes: seq<nat>, mounted: seq<bool>,
                     memory: array<nat>, total: nat, forceSockets: bool, cpu: seq<nat>, unlinkOk: nat -> bool)
    returns (ok: bool, nr: int, ghost limits: seq<seq<nat>>, ghost request: seq<nat>, ghost shared: seq<Page>)
    requires tbl != hp && tbl.Length == hp.Length && Ready(tbl[..], sizes, mounted, memory.Length)
    requires forall i :: 0 <= i < hp.Length ==> hp[i] == CLEARED
    requires forall k :: 0 <= k < memseg.Length ==> memseg[k] == EMPTY
    requires forceSockets ==> Sum(memory[..]) == total
    requires !forceSockets ==> forall s :: 0 <= s < memory.Length ==> memory[s] == 0
    requires !forceSockets ==> |cpu| == memory.Length && Sum(cpu) > 0
    modifies tbl, hp, memory, memseg
    ensures ok ==> Granted(old(tbl[..]), sizes, mounted, forceSockets, total, cpu, old(memory[..]), limits, request)
    ensures ok ==> Selected(old(tbl[..]), sizes, memory.Length, limits, shared, nr)
    ensures ok ==> 0 <= nr <= |shared| && |shared| == hp.Length && Compacted(shared, nr)
    ensures ok ==> Describes(shared, |shared|, memseg[..])
    ensures ok ==> forall i :: 0 <= i < hp.Length ==> hp[i] == Tagged(shared, i)
    ensures RequestFits(old(tbl[..]), sizes, mounted, forceSockets, total, old(memory[..])) && AllUnlink(unlinkOk) ==>
              Granted(old(tbl[..]), sizes, mounted, forceSockets, total, cpu, old(memory[..]), limits, request)
    ensures RequestFits(old(tbl[..]), sizes, mounted, forceSockets, total, old(memory[..])) && AllUnlink(unlinkOk) ==>
              Selected(old(tbl[..]), sizes, memory.Length, limits, shared, nr)
    ensures RequestFits(old(tbl[..]), sizes, mounted, forceSockets, total, old(memory[..])) && AllUnlink(unlinkOk) ==>
              (ok <==> Runs(shared) <= memseg.Length)
    ensures !RequestFits(old(tbl[..]), sizes, mounted, forceSockets, total, old(memory[..])) ==> !ok
  {
    hide *;
    ghost var pages := tbl[..];
    shared := [];
    ok, limits, nr, request := SelectPages(tbl, hp, sizes, mounted, memory, total, forceSockets, cpu, unlinkOk);
    if ok {
      shared := hp[..];
      SelectedCompacted(pages, sizes, mounted, memory.Length, limits, shared, nr);
      ok := FillMemsegs(hp, memseg);
    }
  }

  /** A primary lays out its memory and a secondary attaches to it. Whenever the primary succeeds, the
      secondary succeeds exactly when its kernel honours every address the primary uses, and then every
      page the primary kept is mapped at the address the primary has it at, and no other page is. */
  method InitThenAttach(tbl: array<Page>, hp: array<Page>, memseg: array<Seg>, sizes: seq<nat>, mounted: seq<bool>,
                        memory: array<nat>, total: nat, forceSockets: bool, cpu: seq<nat>, unlinkOk: nat -> bool,
                        honoured: (nat, nat) -> bool)
    returns (ok: bool, attached: bool, mapped: map<nat, nat>, nr: int, ghost limits: seq<seq<nat>>,
             ghost request: seq<nat>, ghost shared: seq<Page>)
    requires tbl != hp && tbl.Length == hp.Length && Ready(tbl[..], sizes, mounted, memory.Length)
    requires forall i :: 0 <= i < hp.Length ==> hp[i] == CLEARED
    requires forall k :: 0 <= k < memseg.Length ==> memseg[k] == EMPTY
    requires forceSockets ==> Sum(memory[..]) == total
    requires !forceSockets ==> forall s :: 0 <= s < memory.Length ==> memory[s] == 0
    requires !forceSockets ==> |cpu| == memory.Length && Sum(cpu) > 0
    modifies tbl, hp, memory, memseg
    ensures ok ==> Granted(old(tbl[..]), sizes, mounted, forceSockets, total, cpu, old(memory[..]), limits, request)
    ensures ok ==> Selected(old(tbl[..]), sizes, memory.Length, limits, shared, nr) && 0 <= nr <= |shared|
    ensures RequestFits(old(tbl[..]), sizes, mounted, forceSockets, total, old(memory[..])) && AllUnlink(unlinkOk) ==>
              Granted(old(tbl[..]), sizes, mounted, forceSockets, total, cpu, old(memory[..]), limits, request)
    ensures RequestFits(old(tbl[..]), sizes, mounted, forceSockets, total, old(memory[..])) && AllUnlink(unlinkOk) ==>
              Selected(old(tbl[..]), sizes, memory.Length, limits, shared, nr)
    ensures RequestFits(old(tbl[..]), sizes, mounted, forceSockets, total, old(memory[..])) && AllUnlink(unlinkOk) ==>
              (ok <==> Runs(shared) <= memseg.Length)
    ensures !RequestFits(old(tbl[..]), sizes, mounted, forceSockets, total, old(memory[..])) ==> !ok
    ensures ok ==> |shared| == hp.Length && Describes(shared, |shared|, memseg[..])
    ensures ok ==> forall i :: 0 <= i < hp.Length ==> hp[i] == Tagged(shared, i)
    ensures if ok then Attached(shared, nr, honoured, attached, mapped) else !attached && mapped == map[]
  {
    hide *;
    attached, mapped := false, map[];
    ok, nr, limits, request, shared :=
      InitPrimary(tbl, hp, memseg, sizes, mounted, memory, total, forceSockets, cpu, unlinkOk);
    if ok {
      attached, mapped := Attach(hp, memseg, honoured, shared, nr);
    }
  }

  // ---------- From the kernel's answers to the secondary process ----------

  function Lengths(tables: seq<array<Page>>): nat {
    if tables == [] then 0 else tables[0].Length + Lengths(tables[1..])
  }

  lemma {:induction false} JoinLength(tables: seq<array<Page>>)
    ensures |Join(Contents(tables))| == Lengths(tables)
    decreases |tables|
  {
    if tables != [] {
      assert Contents(tables)[1..] == Contents(tables[1..]);
      JoinLength(tables[1..]);
    }
  }

  lemma {:induction false} JoinMore(parts: seq<seq<Page>>, n: nat)
    requires n < |parts|
    ensures Join(parts[..n + 1]) == Join(parts[..n]) + parts[n]
    decreases n
  {
    if n == 0 {
      assert parts[..1][1..] == [];
    } else {
      assert parts[..n + 1][1..] == parts[1..][..n] && parts[..n][1..] == parts[1..][..n - 1];
      JoinMore(parts[1..], n - 1);
    }
  }

  lemma {:induction false} JoinShorter(parts: seq<seq<Page>>, n: nat)
    requires n <= |parts|
    ensures |Join(parts[..n])| <= |Join(parts)|
    decreases |parts| - n
  {
    if n < |parts| {
      JoinMore(parts, n);
      JoinShorter(parts, n + 1);
    } else {
      assert parts[..n] == parts;
    }
  }

  /** The table of all sizes, one part after the other. */
  method JoinTables(tables: seq<array<Page>>, tbl: array<Page>)
    requires tbl !in tables && tbl.Length == Lengths(tables)
    modifies tbl
    ensures tbl[..] == Join(Contents(tables))
  {
    ghost var parts := Contents(tables);
    JoinLength(tables);
    var offset := 0;
    for j := 0 to |tables|
      invariant Contents(tables) == parts
      invariant offset == |Join(parts[..j])| <= tbl.Length && tbl[..offset] == Join(parts[..j])
    {
      JoinMore(parts, j);
      JoinShorter(parts, j + 1);
      var start := offset;
      ghost var done := tbl[..start];
      for i := 0 to tables[j].Length
        invariant offset == start + i <= tbl.Length && Contents(tables) == parts
        invariant tbl[..start] == done && tbl[start..offset] == parts[j][..i]
      {
        tbl[offset] := tables[j][i];
        offset := offset + 1;
      }
      assert tbl[..offset] == tbl[..start] + tbl[start..offset];
      assert parts[j][..tables[j].Length] == parts[j];
    }
    assert parts[..|tables|] == parts && tbl[..tbl.Length] == tbl[..];
  }

  /** The whole way: the pages of every size are remapped, the primary selects pages and lays out segments, and a
      secondary attaches. If everything but the last step succeeds, the secondary has exactly the selected pages
      at the addresses that the kernel gave the primary, or its kernel has refused one of these addresses. With a kernel
      that places, locks and unlinks every page, the primary succeeds exactly when the request fits and the runs
      fit the slots; the parts and the selection that this speaks of are the only ones (`RemapsUnique`,
      `SelectionUnique`). */
  method RemapInitAttach(tables: seq<array<Page>>, tbl: array<Page>, hp: array<Page>, memseg: array<Seg>,
                         sizes: seq<nat>, mounted: seq<bool>, memory: array<nat>, total: nat, forceSockets: bool,
                         cpu: seq<nat>, openOk: nat -> nat -> bool, probe: nat -> nat -> nat -> Option<nat>,
                         place: nat -> (nat, nat) -> Option<nat>, lockOk: nat -> nat -> bool, unlinkOk: nat -> bool,
                         honoured: (nat, nat) -> bool)
    returns (ok: bool, attached: bool, mapped: map<nat, nat>, nr: int, ghost parts: seq<seq<Page>>,
             ghost limits: seq<seq<nat>>, ghost request: seq<nat>, ghost shared: seq<Page>)
    requires |tables| == |sizes| == |mounted| && Distinct(sizes)
    requires forall j, k :: 0 <= j < k < |tables| ==> tables[j] != tables[k]
    requires tbl !in tables && hp !in tables && tbl != hp && tbl.Length == hp.Length == Lengths(tables)
    requires forall j :: 0 <= j < |sizes| ==> Remap.PageSize(sizes[j]) && Remap.Usable(place(j), sizes[j])
    requires forall j: nat, i: nat :: Remap.Sane(probe(j)(i))
    requires forall j :: 0 <= j < |tables| ==> Located(tables[j][..], sizes[j], memory.Length)
    requires forall i :: 0 <= i < hp.Length ==> hp[i] == CLEARED
    requires forall k :: 0 <= k < memseg.Length ==> memseg[k] == EMPTY
    requires forceSockets ==> Sum(memory[..]) == total
    requires !forceSockets ==> forall s :: 0 <= s < memory.Length ==> memory[s] == 0
    requires !forceSockets ==> |cpu| == memory.Length && Sum(cpu) > 0
    modifies tables, tbl, hp, memory, memseg
    ensures ok ==> Remaps(old(Contents(tables)), parts, sizes, openOk, probe, place, lockOk)
    ensures ok ==> Ready(Join(parts), sizes, mounted, memory.Length)
    ensures ok ==> Granted(Join(parts), sizes, mounted, forceSockets, total, cpu, old(memory[..]), limits, request)
    ensures ok ==> Selected(Join(parts), sizes, memory.Length, limits, shared, nr) && 0 <= nr <= |shared|
    ensures ok ==> |shared| == hp.Length && Describes(shared, |shared|, memseg[..])
    ensures ok ==> forall i :: 0 <= i < hp.Length ==> hp[i] == Tagged(shared, i)
    ensures if ok then Attached(shared, nr, honoured, attached, mapped) else !attached && mapped == map[]
    ensures Granting(place, lockOk) ==>
              && Remaps(old(Contents(tables)), parts, sizes, openOk, probe, place, lockOk)
              && Ready(Join(parts), sizes, mounted, memory.Length)
    ensures Granting(place, lockOk) && AllUnlink(unlinkOk)
            && RequestFits(Join(parts), sizes, mounted, forceSockets, total, old(memory[..])) ==>
              && Granted(Join(parts), sizes, mounted, forceSockets, total, cpu, old(memory[..]), limits, request)
              && Selected(Join(parts), sizes, memory.Length, limits, shared, nr)
    ensures Granting(place, lockOk) && AllUnlink(unlinkOk) ==>
              (ok <==> RequestFits(Join(parts), sizes, mounted, forceSockets, total, old(memory[..]))
                       && Runs(shared) <= memseg.Length)
  {
    hide *;
    attached, mapped, nr, parts, limits, request, shared := false, map[], 0, [], [], [], [];
    ok := RemapSizes(tables, sizes, mounted, memory.Length, openOk, probe, place, lockOk);
    if ok {
      parts := Contents(tables);
      JoinTables(tables, tbl);
      ok, attached, mapped, nr, limits, request, shared :=
        InitThenAttach(tbl, hp, memseg, sizes, mounted, memory, total, forceSockets, cpu, unlinkOk, honoured);
    }
  }
}
