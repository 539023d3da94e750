/** The second mapping of the huge pages (deps/dpdk-extras/dpdk-patches-17.08/eal_memory.c, x86 branches):
    `get_virtual_area`, and `map_all_hugepages` called to lay physically contiguous pages out contiguously.
    The kernel is an oracle: every answer it may give to a reservation or a mapping is an input. */
module Remap {
  import opened Bits
  import opened HugepageTable
  import opened Options

  // ---------- Reserving a virtual area ----------

  /** `(addr + (sz - 1)) & ~(sz - 1)`. */
  function AlignUp(addr: nat, sz: nat): nat
    requires 0 < sz <= WORD
  {
    And(addr + (sz - 1), WORD - sz)
  }

  /** A page size: a power of two below the word size. */
  ghost predicate PageSize(sz: nat) {
    IsPow2(sz) && sz < WORD
  }

  lemma AlignsUp(addr: nat, sz: nat)
    requires PageSize(sz) && addr + sz <= WORD
    ensures sz > 0 && addr <= AlignUp(addr, sz) < addr + sz && AlignUp(addr, sz) % sz == 0
  {
    hide Pow2, And;
    var k: nat :| Pow2(k) == sz;
    Pow2Word();
    Pow2Order(64, k);
    MaskRoundsDown(addr + (sz - 1), k, 64);
    RoundedDown(addr + (sz - 1), sz);
  }

  lemma RoundedDown(x: nat, m: nat)
    requires m > 0
    ensures x - x % m <= x < x - x % m + m && (x - x % m) % m == 0
  {
    ModUnique(x - x % m, m, x / m, 0);
  }

  /** Answers of the kernel to a reservation of so many bytes: an area in the address space, never at 0. */
  ghost predicate Sane(probe: nat -> Option<nat>) {
    forall len: nat :: probe(len).Some? ==> probe(len).value > 0 && probe(len).value + len <= WORD
  }

  function Bytes(sz: nat, n: nat): nat { sz * n }

  lemma BytesOrder(sz: nat, m: nat, n: nat)
    requires m <= n
    ensures Bytes(sz, m) <= Bytes(sz, n)
  {
    assert sz * n == sz * m + sz * (n - m);
  }

  lemma OnePageLess(sz: nat, n: nat)
    requires n > 0 && sz > 0
    ensures Bytes(sz, n) >= sz && Bytes(sz, n) - sz == Bytes(sz, n - 1)
    ensures n > 1 ==> Bytes(sz, n - 1) > 0
  {
  }

  /** `get_virtual_area`: the longest area of whole pages, up to the `size` asked for, whose reservation with
      one page of slack is granted; aligned, it fits inside the granted area. An address of 0 is NULL. The
      ghost result counts the pages. */
  method GetVirtualArea(size: nat, sz: nat, openOk: bool, probe: nat -> Option<nat>, ghost n: nat)
    returns (addr: nat, size': nat, ghost n': nat)
    requires PageSize(sz) && n > 0 && size == Bytes(sz, n) && Sane(probe)
    ensures size' == Bytes(sz, n') && n' <= n
    ensures addr == 0 <==> !openOk || forall m :: 0 < m <= n ==> probe(Bytes(sz, m) + sz).None?
    ensures addr != 0 ==> n' > 0 && forall m :: n' < m <= n ==> probe(Bytes(sz, m) + sz).None?
    ensures addr != 0 ==> addr % sz == 0 && probe(size' + sz).Some?
    ensures addr != 0 ==> probe(size' + sz).value <= addr < probe(size' + sz).value + sz
    ensures addr != 0 ==> probe(size' + sz).value <= addr && addr + size' <= probe(size' + sz).value + (size' + sz)
  {
    hide Pow2, IsPow2;
    assert sz > 0 by { Positive(sz); }
    size', n' := size, n;
    if !openOk {
      return 0, size', n';
    }
    while size' > 0 && probe(size' + sz).None?
      invariant size' == Bytes(sz, n') && n' <= n
      invariant forall m :: n' < m <= n ==> probe(Bytes(sz, m) + sz).None?
      decreases size'
    {
      assert n' > 0;
      OnePageLess(sz, n');
      size' := size' - sz;
      n' := n' - 1;
    }
    if size' == 0 {
      assert n' == 0;
      return 0, 0, n';
    }
    var a := probe(size' + sz).value;
    AlignsUp(a, sz);
    addr := AlignUp(a, sz);
  }

  lemma Positive(sz: nat)
    requires PageSize(sz)
    ensures sz > 0
  {
  }

  // ---------- Remapping ----------

  /** A reserved area: `pages` pages from page `first` on, at `base` (0 when nothing could be reserved). */
  datatype Area = Area(first: nat, pages: nat, base: nat)

  /** Page `p` follows its predecessor in physical memory. */
  predicate Adjacent(pages: seq<Page>, sz: nat, p: nat)
    requires 0 < p < |pages|
  {
    pages[p].phys == pages[p - 1].phys + sz
  }

  /** No physical gap among the pages from `a` up to `b`. */
  predicate Contiguous(pages: seq<Page>, sz: nat, a: nat, b: nat)
    requires b <= |pages|
  {
    forall p :: a < p < b ==> Adjacent(pages, sz, p)
  }

  /** How far the physical run of page `i` extends. */
  method RunEnd(tbl: array<Page>, sz: nat, i: nat) returns (j: nat)
    requires i < tbl.Length
    ensures i < j <= tbl.Length && Contiguous(tbl[..], sz, i, j)
    ensures j < tbl.Length ==> !Adjacent(tbl[..], sz, j)
  {
    j := i + 1;
    while j < tbl.Length && tbl[j].phys == tbl[j - 1].phys + sz
      invariant i < j <= tbl.Length && Contiguous(tbl[..], sz, i, j)
    {
      j := j + 1;
    }
  }

  /** The areas follow each other without a hole or an overlap, and none spans a physical gap. */
  ghost predicate Tiled(pages: seq<Page>, sz: nat, areas: seq<Area>, end: nat) {
    && (areas == [] ==> end == 0)
    && (areas != [] ==> areas[0].first == 0 && end == areas[|areas| - 1].first + areas[|areas| - 1].pages)
    && (forall a :: 0 < a < |areas| ==> areas[a].first == areas[a - 1].first + areas[a - 1].pages)
    && (forall a, b :: 0 <= a < b < |areas| ==> areas[a].first + areas[a].pages <= areas[b].first)
    && (forall a :: 0 <= a < |areas| ==>
          && areas[a].pages > 0 && areas[a].first + areas[a].pages <= |pages|
          && Contiguous(pages, sz, areas[a].first, areas[a].first + areas[a].pages))
  }

  lemma TiledMore(pages: seq<Page>, sz: nat, areas: seq<Area>, end: nat, n: nat, base: nat)
    requires Tiled(pages, sz, areas, end) && n > 0 && end + n <= |pages| && Contiguous(pages, sz, end, end + n)
    ensures Tiled(pages, sz, areas + [Area(end, n, base)], end + n)
  {
  }

  /** The address at which page `p` of an area is asked for. */
  function HintIn(area: Area, sz: nat, p: nat): nat
    requires p >= area.first
  {
    if area.base == 0 then 0 else area.base + sz * (p - area.first)
  }

  lemma FirstHint(area: Area, sz: nat)
    ensures HintIn(area, sz, area.first) == area.base
  {
  }

  lemma NoBytes(sz: nat)
    ensures Bytes(sz, 0) == 0
  {
  }

  lemma NextHint(area: Area, sz: nat, p: nat)
    requires p >= area.first && HintIn(area, sz, p) != 0
    ensures HintIn(area, sz, p + 1) == HintIn(area, sz, p) + sz
  {
  }

  /** Every page that has a hint was asked for at its place in its area. */
  ghost predicate Hinted(sz: nat, areas: seq<Area>, hints: seq<nat>) {
    forall a, p :: 0 <= a < |areas| && areas[a].first <= p < areas[a].first + areas[a].pages && p < |hints| ==>
      hints[p] == HintIn(areas[a], sz, p)
  }

  lemma HintedArea(sz: nat, areas: seq<Area>, hints: seq<nat>, area: Area)
    requires Hinted(sz, areas, hints) && area.first >= |hints|
    ensures Hinted(sz, areas + [area], hints)
  {
  }

  lemma HintedPage(pages: seq<Page>, sz: nat, areas: seq<Area>, hints: seq<nat>, end: nat)
    requires Tiled(pages, sz, areas, end) && Hinted(sz, areas, hints)
    requires areas != [] && Last(areas).first <= |hints| < end
    ensures Hinted(sz, areas, hints + [HintIn(Last(areas), sz, |hints|)])
  {
    hide HintIn, Contiguous;
  }

  /** The kernel grants every reservation of up to `limit` bytes and honours every hint in the address space. */
  ghost predicate Generous(sz: nat, limit: nat, openOk: nat -> bool, probe: nat -> nat -> Option<nat>,
                           place: (nat, nat) -> Option<nat>)
  {
    && (forall i: nat :: openOk(i))
    && (forall i: nat, len: nat :: len <= limit ==> probe(i)(len).Some?)
    && (forall i: nat, hint: nat :: 0 < hint && hint + sz <= WORD ==> place(i, hint) == Some(hint))
  }

  /** Where the kernel puts a page of `sz` bytes: in the address space, never at 0. */
  ghost predicate Usable(place: (nat, nat) -> Option<nat>, sz: nat) {
    forall i: nat, hint: nat :: place(i, hint).Some? ==> place(i, hint).value > 0 && place(i, hint).value + sz <= WORD
  }

  /** Such a kernel exists, with reservations up to any limit below the size of the address space. */
  lemma GenerousKernel(sz: nat, limit: nat)
    returns (openOk: nat -> bool, probe: nat -> nat -> Option<nat>, place: (nat, nat) -> Option<nat>)
    requires PageSize(sz) && limit < WORD
    ensures (forall i: nat :: Sane(probe(i))) && Usable(place, sz) && Generous(sz, limit, openOk, probe, place)
  {
    hide IsPow2;
    openOk := (i: nat) => true;
    probe := (i: nat) => (len: nat) => if len <= limit then Some(1) else None;
    place := (i: nat, hint: nat) => if 0 < hint && hint + sz <= WORD then Some(hint) else Some(1);
  }

  /** The `m` pages from `first` on are physically contiguous, and the kernel grants room for them and one more. */
  predicate Grantable(pages: seq<Page>, sz: nat, first: nat, m: nat, probe: nat -> Option<nat>) {
    first + m <= |pages| && Contiguous(pages, sz, first, first + m) && probe(Bytes(sz, m) + sz).Some?
  }

  /** The area is the longest stretch of contiguous pages that the kernel grants room for, at the first page
      boundary inside the granted area; or one page at no address, when the kernel grants room for no stretch. */
  ghost predicate Reserved(pages: seq<Page>, sz: nat, area: Area, openOk: bool, probe: nat -> Option<nat>) {
    && sz > 0
    && if area.base == 0 then
         area.pages == 1 && (openOk ==> forall m: nat :: m > 0 ==> !Grantable(pages, sz, area.first, m, probe))
       else
         && openOk && area.pages > 0 && Grantable(pages, sz, area.first, area.pages, probe)
         && (forall m: nat :: m > area.pages ==> !Grantable(pages, sz, area.first, m, probe))
         && var start := probe(Bytes(sz, area.pages) + sz).value;
            start <= area.base < start + sz && area.base % sz == 0
  }

  /** A run that ends at `j` has no contiguous stretch beyond `j`. */
  lemma RunBound(pages: seq<Page>, sz: nat, i: nat, j: nat, m: nat)
    requires i < j <= |pages| && (j < |pages| ==> !Adjacent(pages, sz, j)) && i + m <= |pages|
    requires Contiguous(pages, sz, i, i + m)
    ensures m <= j - i
  {
  }

  /** The part of a run that was granted is the reserved area. */
  lemma ReservedRun(pages: seq<Page>, sz: nat, i: nat, j: nat, addr: nat, n: nat, openOk: bool,
                    probe: nat -> Option<nat>)
    requires sz > 0 && i < j <= |pages| && Contiguous(pages, sz, i, j) && (j < |pages| ==> !Adjacent(pages, sz, j))
    requires addr == 0 ==> n == 1 && (!openOk || forall m :: 0 < m <= j - i ==> probe(Bytes(sz, m) + sz).None?)
    requires addr != 0 ==> openOk && 0 < n <= j - i && forall m :: n < m <= j - i ==> probe(Bytes(sz, m) + sz).None?
    requires addr != 0 ==> addr % sz == 0 && probe(Bytes(sz, n) + sz).Some?
    requires addr != 0 ==> probe(Bytes(sz, n) + sz).value <= addr < probe(Bytes(sz, n) + sz).value + sz
    ensures Reserved(pages, sz, Area(i, n, addr), openOk, probe)
  {
    hide Bytes, Adjacent, Contiguous;
    forall m: nat | m > 0 && Grantable(pages, sz, i, m, probe)
      ensures m <= j - i
    {
      RunBound(pages, sz, i, j, m);
    }
    if addr != 0 {
      Shorter(pages, sz, i, j, i + n);
    }
  }

  lemma Shorter(pages: seq<Page>, sz: nat, i: nat, j: nat, k: nat)
    requires i <= k <= j <= |pages| && Contiguous(pages, sz, i, j)
    ensures Contiguous(pages, sz, i, k)
  {
  }

  /** The reservation step: a new area for the physical run that starts at page `i`. */
  method Reserve(tbl: array<Page>, sz: nat, i: nat, openOk: bool, probe: nat -> Option<nat>)
    returns (vmaAddr: nat, vmaLen: nat, ghost left: nat)
    requires PageSize(sz) && i < tbl.Length && Sane(probe)
    ensures vmaAddr + vmaLen <= WORD
    ensures vmaLen == Bytes(sz, left) && vmaLen > 0 && left > 0
    ensures i + left <= tbl.Length && Contiguous(tbl[..], sz, i, i + left)
    ensures vmaAddr == 0 ==> left == 1
    ensures Reserved(tbl[..], sz, Area(i, left, vmaAddr), openOk, probe)
    ensures openOk && (forall len: nat :: len <= Bytes(sz, tbl.Length) + sz ==> probe(len).Some?) ==>
              vmaAddr != 0 && (i + left < tbl.Length ==> !Adjacent(tbl[..], sz, i + left))
  {
    hide IsPow2, Reserved;
    Positive(sz);
    var j := RunEnd(tbl, sz, i);
    vmaLen := Bytes(sz, j - i);
    BytesOrder(sz, j - i, tbl.Length);
    vmaAddr, vmaLen, left := GetVirtualArea(vmaLen, sz, openOk, probe, j - i);
    if vmaAddr == 0 {
      vmaLen := sz;
      left := 1;
    }
    ReservedRun(tbl[..], sz, i, j, vmaAddr, left, openOk, probe);
  }

  /** Every area is the one that the kernel's answers at its first page call for. */
  ghost predicate AllReserved(pages: seq<Page>, sz: nat, areas: seq<Area>, openOk: nat -> bool,
                              probe: nat -> nat -> Option<nat>) {
    forall a :: 0 <= a < |areas| ==>
      Reserved(pages, sz, areas[a], openOk(areas[a].first), probe(areas[a].first))
  }

  lemma AllReservedMore(pages: seq<Page>, now: seq<Page>, sz: nat, areas: seq<Area>, area: Area, openOk: nat -> bool,
                        probe: nat -> nat -> Option<nat>)
    requires AllReserved(pages, sz, areas, openOk, probe) && |now| == |pages|
    requires forall p :: area.first <= p < |pages| ==> now[p] == pages[p]
    requires Reserved(now, sz, area, openOk(area.first), probe(area.first))
    ensures AllReserved(pages, sz, areas + [area], openOk, probe)
  {
    hide Reserved;
    ReservedSame(now, pages, sz, area, openOk(area.first), probe(area.first));
  }

  /** Only the pages from the first one on matter to a reservation. */
  lemma ReservedSame(a: seq<Page>, b: seq<Page>, sz: nat, area: Area, openOk: bool, probe: nat -> Option<nat>)
    requires Reserved(a, sz, area, openOk, probe)
    requires |a| == |b| && forall p :: area.first <= p < |a| ==> a[p] == b[p]
    ensures Reserved(b, sz, area, openOk, probe)
  {
    hide Contiguous, Bytes;
    forall m: nat | m > 0
      ensures Grantable(a, sz, area.first, m, probe) == Grantable(b, sz, area.first, m, probe)
    {
      if area.first + m <= |a| {
        RunSame(a, b, sz, area.first, m);
      }
    }
  }

  /** Between two pages: `left` pages of the last area are still to be mapped, the next one at `vmaAddr`, and
      they end inside the address space. */
  ghost predicate Progress(pages: seq<Page>, sz: nat, areas: seq<Area>, hints: seq<nat>, left: nat, vmaAddr: nat,
                           vmaLen: nat) {
    && Tiled(pages, sz, areas, |hints| + left) && Hinted(sz, areas, hints) && vmaLen == Bytes(sz, left)
    && (left > 0 ==> areas != [] && Last(areas).first <= |hints| && vmaAddr == HintIn(Last(areas), sz, |hints|))
    && (left > 0 ==> (vmaAddr == 0 ==> left == 1) && vmaAddr + vmaLen <= WORD)
  }

  lemma ProgressReserve(pages: seq<Page>, sz: nat, areas: seq<Area>, hints: seq<nat>, left: nat, vmaAddr: nat,
                        vmaLen: nat)
    requires Tiled(pages, sz, areas, |hints|) && Hinted(sz, areas, hints) && left > 0 && vmaLen == Bytes(sz, left)
    requires |hints| + left <= |pages| && Contiguous(pages, sz, |hints|, |hints| + left)
    requires (vmaAddr == 0 ==> left == 1) && vmaAddr + vmaLen <= WORD
    ensures Progress(pages, sz, areas + [Area(|hints|, left, vmaAddr)], hints, left, vmaAddr, vmaLen)
  {
    hide Tiled, Hinted, HintIn, Bytes, Contiguous;
    var area := Area(|hints|, left, vmaAddr);
    TiledMore(pages, sz, areas, |hints|, left, vmaAddr);
    HintedArea(sz, areas, hints, area);
    FirstHint(area, sz);
  }

  lemma ProgressPage(pages: seq<Page>, sz: nat, areas: seq<Area>, hints: seq<nat>, left: nat, vmaAddr: nat, vmaLen: nat)
    requires Progress(pages, sz, areas, hints, left, vmaAddr, vmaLen) && left > 0 && sz > 0
    ensures vmaLen >= sz && Progress(pages, sz, areas, hints + [vmaAddr], left - 1, vmaAddr + sz, vmaLen - sz)
    ensures vmaLen - sz == 0 <==> left == 1
  {
    hide Tiled, Hinted, HintIn, Bytes;
    OnePageLess(sz, left);
    NoBytes(sz);
    HintedPage(pages, sz, areas, hints, |hints| + left);
    if vmaAddr != 0 {
      NextHint(Last(areas), sz, |hints|);
    }
  }

  lemma ProgressFacts(pages: seq<Page>, sz: nat, areas: seq<Area>, hints: seq<nat>, left: nat, vmaAddr: nat,
                      vmaLen: nat)
    requires Progress(pages, sz, areas, hints, left, vmaAddr, vmaLen)
    ensures Tiled(pages, sz, areas, |hints| + left) && Hinted(sz, areas, hints)
    ensures left > 0 ==> areas != [] && Last(areas).first <= |hints| && vmaAddr == HintIn(Last(areas), sz, |hints|)
    ensures left > 0 && sz > 0 ==> vmaAddr + sz <= WORD
  {
    hide Tiled, Hinted, HintIn, Bytes;
    if left > 0 && sz > 0 {
      OnePageLess(sz, left);
    }
  }

  /** `map_all_hugepages` without `orig`. It returns the number of pages mapped: all of them, or those before the
      first that cannot be opened, mapped or locked. The areas reserved on the way tile the pages and span no
      physical gap, whatever the kernel grants. With a generous kernel, physically adjacent pages end up virtually
      adjacent. */
  method RemapHugepages(tbl: array<Page>, sz: nat, openOk: nat -> bool, probe: nat -> nat -> Option<nat>,
                        place: (nat, nat) -> Option<nat>, lockOk: nat -> bool)
    returns (mapped: nat, ghost areas: seq<Area>, ghost hints: seq<nat>, ghost end: nat)
    requires PageSize(sz) && forall i: nat :: Sane(probe(i))
    modifies tbl
    ensures mapped == |hints| <= end <= tbl.Length && Tiled(old(tbl[..]), sz, areas, end) && Hinted(sz, areas, hints)
    ensures AllReserved(old(tbl[..]), sz, areas, openOk, probe)
    ensures MappedAt(old(tbl[..]), tbl[..], hints, place, lockOk)
    ensures mapped < tbl.Length ==> areas != [] && Last(areas).first <= mapped
    ensures mapped < tbl.Length ==> place(mapped, HintIn(Last(areas), sz, mapped)).None? || !lockOk(mapped)
    ensures Generous(sz, Bytes(sz, tbl.Length) + sz, openOk, probe, place) ==> Linked(old(tbl[..]), tbl[..], sz, mapped)
  {
    hide PageSize, Tiled, Hinted, HintIn, Bytes, Sane, Generous, Contiguous, Adjacent, MappedAt, Linked, Progress,
         Reserved, AllReserved;
    Positive(sz);
    ghost var pages, generous := tbl[..], Generous(sz, Bytes(sz, tbl.Length) + sz, openOk, probe, place);
    areas, hints, end := [], [], 0;
    NothingTiled(pages, sz, openOk, probe, place, lockOk);
    var vmaAddr: nat, vmaLen: nat, i := 0, 0, 0;
    ghost var left: nat := 0;
    while i < tbl.Length
      invariant i == |hints| <= tbl.Length
      invariant (vmaLen == 0 <==> left == 0) && end == i + left <= tbl.Length
      invariant Progress(pages, sz, areas, hints, left, vmaAddr, vmaLen)
      invariant MappedAt(pages, tbl[..], hints, place, lockOk) && AllReserved(pages, sz, areas, openOk, probe)
      invariant forall p :: i <= p < tbl.Length ==> tbl[p] == pages[p]
      invariant generous && left > 0 ==> vmaAddr > 0 && (i > 0 ==> vmaAddr == tbl[i - 1].va + sz)
      invariant generous && 0 < end < tbl.Length ==> !Adjacent(pages, sz, end)
      invariant generous ==> Linked(pages, tbl[..], sz, i)
      decreases tbl.Length - i
    {
      if vmaLen == 0 {
        ProgressFacts(pages, sz, areas, hints, left, vmaAddr, vmaLen);
        GenerousAt(sz, Bytes(sz, tbl.Length) + sz, openOk, probe, place, i);
        vmaAddr, vmaLen, left := Reserve(tbl, sz, i, openOk(i), probe(i));
        RunSame(tbl[..], pages, sz, i, left);
        ProgressReserve(pages, sz, areas, hints, left, vmaAddr, vmaLen);
        AllReservedMore(pages, tbl[..], sz, areas, Area(i, left, vmaAddr), openOk, probe);
        areas := areas + [Area(i, left, vmaAddr)];
        end := i + left;
      }
      ProgressFacts(pages, sz, areas, hints, left, vmaAddr, vmaLen);
      if place(i, vmaAddr).None? {
        return i, areas, hints, end;
      }
      GenerousPlace(sz, Bytes(sz, tbl.Length) + sz, openOk, probe, place, i, vmaAddr);
      ghost var before := tbl[..];
      ghost var page := pages[i].(va := place(i, vmaAddr).value);
      tbl[i] := tbl[i].(va := place(i, vmaAddr).value);
      assert tbl[..] == before[i := page];
      if !lockOk(i) {
        MappedFrom(pages, before, hints, place, lockOk, page);
        LinkedMore(pages, before, sz, i, page);
        return i, areas, hints, end;
      }
      MappedMore(pages, before, hints, place, lockOk, vmaAddr);
      LinkedMore(pages, before, sz, i, page);
      ProgressPage(pages, sz, areas, hints, left, vmaAddr, vmaLen);
      hints := hints + [vmaAddr];
      vmaAddr := vmaAddr + sz;
      vmaLen := vmaLen - sz;
      left := left - 1;
      i := i + 1;
    }
    ProgressFacts(pages, sz, areas, hints, left, vmaAddr, vmaLen);
    mapped := i;
  }

  /** The pages below `|hints|` are mapped where the kernel put them when asked for their hint, and locked;
      the pages after the next one are untouched. */
  ghost predicate MappedAt(pages: seq<Page>, now: seq<Page>, hints: seq<nat>, place: (nat, nat) -> Option<nat>,
                           lockOk: nat -> bool) {
    && |now| == |pages| && |hints| <= |pages|
    && (forall p :: 0 <= p < |hints| ==>
          lockOk(p) && place(p, hints[p]).Some? && now[p] == pages[p].(va := place(p, hints[p]).value))
    && (forall p :: |hints| < p < |pages| ==> now[p] == pages[p])
  }

  lemma MappedFrom(pages: seq<Page>, now: seq<Page>, hints: seq<nat>, place: (nat, nat) -> Option<nat>,
                   lockOk: nat -> bool, page: Page)
    requires MappedAt(pages, now, hints, place, lockOk) && |hints| < |pages|
    ensures MappedAt(pages, now[|hints| := page], hints, place, lockOk)
  {
  }

  lemma MappedMore(pages: seq<Page>, now: seq<Page>, hints: seq<nat>, place: (nat, nat) -> Option<nat>,
                   lockOk: nat -> bool, hint: nat)
    requires MappedAt(pages, now, hints, place, lockOk) && |hints| < |pages|
    requires place(|hints|, hint).Some? && lockOk(|hints|)
    ensures var page := pages[|hints|].(va := place(|hints|, hint).value);
            MappedAt(pages, now[|hints| := page], hints + [hint], place, lockOk)
  {
  }

  /** Physically adjacent pages among the first `n` are virtually adjacent. */
  predicate Linked(pages: seq<Page>, now: seq<Page>, sz: nat, n: nat)
    requires n <= |now| == |pages|
  {
    forall p :: 0 < p < n && Adjacent(pages, sz, p) ==> now[p].va == now[p - 1].va + sz
  }

  lemma LinkedMore(pages: seq<Page>, now: seq<Page>, sz: nat, n: nat, page: Page)
    requires n < |now| == |pages|
    ensures Linked(pages, now, sz, n) ==> Linked(pages, now[n := page], sz, n)
    ensures Linked(pages, now, sz, n) && (n > 0 && Adjacent(pages, sz, n) ==> page.va == now[n - 1].va + sz) ==>
              Linked(pages, now[n := page], sz, n + 1)
  {
  }

  lemma GenerousAt(sz: nat, limit: nat, openOk: nat -> bool, probe: nat -> nat -> Option<nat>,
                   place: (nat, nat) -> Option<nat>, i: nat)
    ensures Generous(sz, limit, openOk, probe, place) ==>
              openOk(i) && forall len: nat :: len <= limit ==> probe(i)(len).Some?
  {
  }

  lemma GenerousPlace(sz: nat, limit: nat, openOk: nat -> bool, probe: nat -> nat -> Option<nat>,
                      place: (nat, nat) -> Option<nat>, i: nat, hint: nat)
    ensures Generous(sz, limit, openOk, probe, place) && 0 < hint && hint + sz <= WORD ==> place(i, hint) == Some(hint)
  {
  }

  /** Mapping changes no physical address. */
  lemma RunSame(a: seq<Page>, b: seq<Page>, sz: nat, i: nat, n: nat)
    requires |a| == |b| && 0 < n && i + n <= |a| && forall p :: i <= p < |a| ==> a[p] == b[p]
    ensures Contiguous(a, sz, i, i + n) == Contiguous(b, sz, i, i + n)
    ensures i + n < |a| ==> Adjacent(a, sz, i + n) == Adjacent(b, sz, i + n)
  {
    forall p | i < p < |a|
      ensures Adjacent(a, sz, p) == Adjacent(b, sz, p)
    {
      assert a[p] == b[p] && a[p - 1] == b[p - 1];
    }
  }

  ghost function Last(areas: seq<Area>): Area
    requires areas != []
  {
    areas[|areas| - 1]
  }

  lemma NothingTiled(pages: seq<Page>, sz: nat, openOk: nat -> bool, probe: nat -> nat -> Option<nat>,
                     place: (nat, nat) -> Option<nat>, lockOk: nat -> bool)
    ensures Tiled(pages, sz, [], 0) && Hinted(sz, [], [])
    ensures MappedAt(pages, pages, [], place, lockOk) && Linked(pages, pages, sz, 0)
    ensures Progress(pages, sz, [], [], 0, 0, 0) && AllReserved(pages, sz, [], openOk, probe)
  {
  }

  // ---------- The answers of the kernel decide the layout ----------

  /** A complete remap of `pages` to `now`, over these areas and hints. */
  ghost predicate Layout(pages: seq<Page>, now: seq<Page>, sz: nat, openOk: nat -> bool,
                         probe: nat -> nat -> Option<nat>, place: (nat, nat) -> Option<nat>, lockOk: nat -> bool,
                         areas: seq<Area>, hints: seq<nat>) {
    && |hints| == |pages| && Tiled(pages, sz, areas, |pages|) && AllReserved(pages, sz, areas, openOk, probe)
    && Hinted(sz, areas, hints) && MappedAt(pages, now, hints, place, lockOk)
  }

  /** The pages have been given the addresses that the answers of the kernel call for. */
  ghost predicate LaidOut(pages: seq<Page>, now: seq<Page>, sz: nat, openOk: nat -> bool,
                          probe: nat -> nat -> Option<nat>, place: (nat, nat) -> Option<nat>, lockOk: nat -> bool) {
    exists areas, hints :: Layout(pages, now, sz, openOk, probe, place, lockOk, areas, hints)
  }

  lemma BoundaryUnique(sz: nat, start: nat, x: nat, y: nat)
    requires sz > 0 && start <= x < start + sz && start <= y < start + sz && x % sz == 0 && y % sz == 0
    ensures x == y
  {
    var d := x / sz - y / sz;
    assert x - y == sz * d;
    MulSign(sz, d);
  }

  lemma ReservedUnique(pages: seq<Page>, sz: nat, x: Area, y: Area, openOk: bool, probe: nat -> Option<nat>)
    requires x.first == y.first && Reserved(pages, sz, x, openOk, probe) && Reserved(pages, sz, y, openOk, probe)
    ensures x == y
  {
    hide Contiguous, Bytes;
    if x.base != 0 && y.base != 0 {
      assert x.pages == y.pages;
      BoundaryUnique(sz, probe(Bytes(sz, x.pages) + sz).value, x.base, y.base);
    }
  }

  /** Tilings by areas that the same answers call for agree as far as both go. */
  lemma {:induction false} AreasAgree(pages: seq<Page>, sz: nat, xs: seq<Area>, ys: seq<Area>, m: nat, n: nat,
                                      openOk: nat -> bool, probe: nat -> nat -> Option<nat>, k: nat)
    requires Tiled(pages, sz, xs, m) && AllReserved(pages, sz, xs, openOk, probe)
    requires Tiled(pages, sz, ys, n) && AllReserved(pages, sz, ys, openOk, probe)
    requires k <= |xs| && k <= |ys|
    ensures xs[..k] == ys[..k]
  {
    hide Reserved, Contiguous;
    if k > 0 {
      AreasAgree(pages, sz, xs, ys, m, n, openOk, probe, k - 1);
      assert k > 1 ==> xs[..k - 1][k - 2] == ys[..k - 1][k - 2];
      var first := xs[k - 1].first;
      ReservedUnique(pages, sz, xs[k - 1], ys[k - 1], openOk(first), probe(first));
      assert xs[..k] == xs[..k - 1] + [xs[k - 1]] && ys[..k] == ys[..k - 1] + [ys[k - 1]];
    }
  }

  lemma AreasUnique(pages: seq<Page>, sz: nat, xs: seq<Area>, ys: seq<Area>, openOk: nat -> bool,
                    probe: nat -> nat -> Option<nat>)
    requires Tiled(pages, sz, xs, |pages|) && AllReserved(pages, sz, xs, openOk, probe)
    requires Tiled(pages, sz, ys, |pages|) && AllReserved(pages, sz, ys, openOk, probe)
    ensures xs == ys
  {
    hide AllReserved, Tiled;
    var k := if |xs| < |ys| then |xs| else |ys|;
    AreasAgree(pages, sz, xs, ys, |pages|, |pages|, openOk, probe, k);
    TilingEnds(pages, sz, xs, k);
    TilingEnds(pages, sz, ys, k);
    assert xs[..|xs|] == xs && ys[..|ys|] == ys;
  }

  /** Part of a tiling does not reach the end. */
  lemma TilingEnds(pages: seq<Page>, sz: nat, areas: seq<Area>, k: nat)
    requires Tiled(pages, sz, areas, |pages|) && k <= |areas|
    ensures k < |areas| ==> !Tiled(pages, sz, areas[..k], |pages|)
  {
    hide Contiguous;
    if 0 < k < |areas| {
      assert areas[..k][k - 1] == areas[k - 1];
    }
  }

  lemma InSomeArea(pages: seq<Page>, sz: nat, areas: seq<Area>, end: nat, p: nat) returns (a: nat)
    requires Tiled(pages, sz, areas, end) && p < end
    ensures a < |areas| && areas[a].first <= p < areas[a].first + areas[a].pages
  {
    hide Contiguous;
    a := |areas| - 1;
    while p < areas[a].first
      invariant 0 <= a < |areas| && p < areas[a].first + areas[a].pages
      decreases a
    {
      a := a - 1;
    }
  }

  /** Whatever the kernel answers, its answers leave no choice: a complete remap has one result. */
  lemma LayoutUnique(pages: seq<Page>, x: seq<Page>, y: seq<Page>, sz: nat, openOk: nat -> bool,
                     probe: nat -> nat -> Option<nat>, place: (nat, nat) -> Option<nat>, lockOk: nat -> bool)
    requires LaidOut(pages, x, sz, openOk, probe, place, lockOk) && LaidOut(pages, y, sz, openOk, probe, place, lockOk)
    ensures x == y
  {
    hide Tiled, AllReserved, HintIn;
    var areas, hints :| Layout(pages, x, sz, openOk, probe, place, lockOk, areas, hints);
    var areas', hints' :| Layout(pages, y, sz, openOk, probe, place, lockOk, areas', hints');
    AreasUnique(pages, sz, areas, areas', openOk, probe);
    forall p | 0 <= p < |pages|
      ensures x[p] == y[p]
    {
      var a := InSomeArea(pages, sz, areas, |pages|, p);
      assert hints[p] == HintIn(areas[a], sz, p) == hints'[p];
    }
  }
}
