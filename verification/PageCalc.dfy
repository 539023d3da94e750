/** `calc_num_pages_per_socket` (deps/dpdk-extras/dpdk-patches-17.08/eal_memory.c): how many huge pages
    of each size are taken from each NUMA socket. */
module PageCalc {

  /** `struct hugepage_info`: a page size, whether a directory is mounted for it, and the pages
      available on each socket. */
  datatype PageInfo = PageInfo(size: nat, mounted: bool, pages: seq<nat>)

  predicate WellFormed(info: seq<PageInfo>, sockets: nat) {
    forall i :: 0 <= i < |info| ==> info[i].size > 0 && |info[i].pages| == sockets
  }

  // ---------- Sums ----------

  function Sum(a: seq<nat>): nat {
    if a == [] then 0 else Sum(a[..|a| - 1]) + a[|a| - 1]
  }

  lemma SumAppend(a: seq<nat>, x: nat)
    ensures Sum(a + [x]) == Sum(a) + x
  {
    assert (a + [x])[..|a|] == a;
  }

  lemma {:induction false} SumUpdate(a: seq<nat>, i: nat, x: nat)
    requires i < |a|
    ensures Sum(a[i := x]) == Sum(a) - a[i] + x
    decreases |a|
  {
    var n := |a| - 1;
    if i == n {
      assert a[i := x][..n] == a[..n];
    } else {
      assert a[i := x][..n] == a[..n][i := x];
      SumUpdate(a[..n], i, x);
    }
  }

  lemma {:induction false} SumZero(a: seq<nat>)
    requires forall i :: 0 <= i < |a| ==> a[i] == 0
    ensures Sum(a) == 0
  {
    if a != [] {
      SumZero(a[..|a| - 1]);
    }
  }

  lemma SumLast(a: seq<nat>)
    requires a != []
    ensures Sum(a) == Sum(a[..|a| - 1]) + a[|a| - 1]
  {
  }

  lemma {:induction false} SumLe(a: seq<nat>, b: seq<nat>)
    requires |a| == |b| && forall i :: 0 <= i < |a| ==> a[i] <= b[i]
    ensures Sum(a) <= Sum(b)
    ensures Sum(a) == Sum(b) ==> a == b
  {
    hide Sum;
    if a != [] {
      var n := |a| - 1;
      SumLe(a[..n], b[..n]);
      SumLast(a);
      SumLast(b);
      assert a == a[..n] + [a[n]] && b == b[..n] + [b[n]];
    }
  }

  // ---------- Capacity and use of one socket ----------

  /** Memory in the pages of the sizes from `i` on. */
  function Capacity(info: seq<PageInfo>, s: nat, i: nat): nat
    requires i <= |info| && forall j :: 0 <= j < |info| ==> s < |info[j].pages|
    decreases |info| - i
  {
    if i == |info| then 0 else info[i].size * info[i].pages[s] + Capacity(info, s, i + 1)
  }

  /** `get_socket_mem_size`: memory in the pages of mounted sizes, the sizes below `i` only. */
  function MountedBelow(info: seq<PageInfo>, s: nat, i: nat): nat
    requires i <= |info| && forall j :: 0 <= j < |info| ==> s < |info[j].pages|
  {
    if i == 0 then 0
    else MountedBelow(info, s, i - 1) + if info[i - 1].mounted then info[i - 1].size * info[i - 1].pages[s] else 0
  }

  function Mounted(info: seq<PageInfo>, s: nat): nat
    requires forall j :: 0 <= j < |info| ==> s < |info[j].pages|
  {
    MountedBelow(info, s, |info|)
  }

  /** Mounted memory is all the memory there would be without the pages of the sizes that are not mounted. */
  lemma MountedIsCapacity(info: seq<PageInfo>, without: seq<PageInfo>, s: nat)
    requires |without| == |info|
    requires forall j :: 0 <= j < |info| ==> s < |info[j].pages| && s < |without[j].pages|
    requires forall j :: 0 <= j < |info| && info[j].mounted ==>
              without[j].size == info[j].size && without[j].pages[s] == info[j].pages[s]
    requires forall j :: 0 <= j < |info| && !info[j].mounted ==> without[j].pages[s] == 0
    ensures Mounted(info, s) == Capacity(without, s, 0)
  {
    MountedFrom(info, without, s, |info|);
  }

  lemma {:induction false} MountedFrom(info: seq<PageInfo>, without: seq<PageInfo>, s: nat, i: nat)
    requires |without| == |info| && i <= |info|
    requires forall j :: 0 <= j < |info| ==> s < |info[j].pages| && s < |without[j].pages|
    requires forall j :: 0 <= j < |info| && info[j].mounted ==>
              without[j].size == info[j].size && without[j].pages[s] == info[j].pages[s]
    requires forall j :: 0 <= j < |info| && !info[j].mounted ==> without[j].pages[s] == 0
    ensures MountedBelow(info, s, i) + Capacity(without, s, i) == Capacity(without, s, 0)
    decreases i
  {
    if i > 0 {
      MountedFrom(info, without, s, i - 1);
    }
  }

  /** With every size mounted, that is all the memory; with none, there is none. */
  lemma MountedAllOrNone(info: seq<PageInfo>, s: nat)
    requires forall j :: 0 <= j < |info| ==> s < |info[j].pages|
    ensures (forall j :: 0 <= j < |info| ==> info[j].mounted) ==> Mounted(info, s) == Capacity(info, s, 0)
    ensures (forall j :: 0 <= j < |info| ==> !info[j].mounted) ==> Mounted(info, s) == 0
  {
    if forall j :: 0 <= j < |info| ==> info[j].mounted {
      MountedFrom(info, info, s, |info|);
    }
    if forall j :: 0 <= j < |info| ==> !info[j].mounted {
      NothingMounted(info, s, |info|);
    }
  }

  lemma {:induction false} NothingMounted(info: seq<PageInfo>, s: nat, i: nat)
    requires i <= |info| && forall j :: 0 <= j < |info| ==> s < |info[j].pages|
    requires forall j :: 0 <= j < |info| ==> !info[j].mounted
    ensures MountedBelow(info, s, i) == 0
  {
    if i > 0 {
      NothingMounted(info, s, i - 1);
    }
  }

  lemma {:induction false} MountedFits(info: seq<PageInfo>, s: nat, i: nat)
    requires i <= |info| && forall j :: 0 <= j < |info| ==> s < |info[j].pages|
    ensures MountedBelow(info, s, i) + Capacity(info, s, i) <= Capacity(info, s, 0)
    decreases i
  {
    if i > 0 {
      MountedFits(info, s, i - 1);
    }
  }

  /** Memory in `col[j]` pages of each size `j`. */
  function MemOf(info: seq<PageInfo>, col: seq<nat>): nat
    requires |col| <= |info|
  {
    if col == [] then 0
    else MemOf(info, col[..|col| - 1]) + info[|col| - 1].size * col[|col| - 1]
  }

  lemma MemAppend(info: seq<PageInfo>, col: seq<nat>, x: nat)
    requires |col| < |info|
    ensures MemOf(info, col + [x]) == MemOf(info, col) + info[|col|].size * x
  {
    assert (col + [x])[..|col|] == col;
  }

  lemma {:induction false} ZeroTail(info: seq<PageInfo>, col: seq<nat>, i: nat)
    requires i <= |col| <= |info| && forall j :: i <= j < |col| ==> col[j] == 0
    ensures MemOf(info, col) == MemOf(info, col[..i]) && Sum(col) == Sum(col[..i])
    decreases |col|
  {
    if i < |col| {
      var n := |col| - 1;
      ZeroTail(info, col[..n], i);
      assert col[..n][..i] == col[..i];
    } else {
      assert col[..i] == col;
    }
  }

  /** No more pages than there are, at least the memory requested, and less than one page over. */
  predicate Serves(info: seq<PageInfo>, s: nat, request: nat, col: seq<nat>)
    requires |col| == |info| && forall j :: 0 <= j < |info| ==> s < |info[j].pages|
  {
    && (forall j :: 0 <= j < |col| ==> col[j] <= info[j].pages[s])
    && request <= MemOf(info, col)
    && (request < MemOf(info, col) ==>
          exists j :: 0 <= j < |col| && col[j] > 0 && MemOf(info, col) - info[j].size < request)
  }

  function Left(request: nat, taken: nat): nat {
    if request < taken then 0 else request - taken
  }

  /** Pages of size `i` for `mem` bytes: the whole pages it takes, as far as there are any, and one more when
      there is one and the sizes after it cannot cover the rest. */
  function PagesFor(info: seq<PageInfo>, s: nat, i: nat, mem: nat): nat
    requires i < |info| && info[i].size > 0 && forall j :: 0 <= j < |info| ==> s < |info[j].pages|
  {
    var whole := Min(mem / info[i].size, info[i].pages[s]);
    var rest := mem - info[i].size * whole;
    if whole < info[i].pages[s] && 0 < rest && Capacity(info, s, i + 1) < rest then whole + 1 else whole
  }

  /** The number of pages for `mem` bytes, by what it does: as many as fit into `mem` if there are as many, and then
      the later sizes can cover the rest; or one more, because they cannot. */
  lemma PagesForIs(info: seq<PageInfo>, s: nat, i: nat, mem: nat)
    requires i < |info| && info[i].size > 0 && forall j :: 0 <= j < |info| ==> s < |info[j].pages|
    ensures var p, size := PagesFor(info, s, i, mem), info[i].size;
            var avail, later := info[i].pages[s], Capacity(info, s, i + 1);
            && p <= avail
            && (size * p <= mem && p < avail ==> mem < size * (p + 1) && (mem == size * p || mem - size * p <= later))
            && (mem < size * p ==> size * (p - 1) < mem - later)
  {
    var size, avail := info[i].size, info[i].pages[s];
    DivBounds(mem, size);
    if mem / size < avail {
      TakeSome(mem, size, avail);
    } else {
      TakeWhole(mem, size, avail);
    }
  }

  /** The sizes are used in order, each for what those before it left over. */
  predicate Greedy(info: seq<PageInfo>, s: nat, request: nat, col: seq<nat>)
    requires |col| <= |info| && forall j :: 0 <= j < |info| ==> info[j].size > 0 && s < |info[j].pages|
  {
    forall i :: 0 <= i < |col| ==> col[i] == PagesFor(info, s, i, Left(request, MemOf(info, col[..i])))
  }

  lemma GreedyMore(info: seq<PageInfo>, s: nat, request: nat, col: seq<nat>, pages: nat)
    requires |col| < |info| && forall j :: 0 <= j < |info| ==> info[j].size > 0 && s < |info[j].pages|
    requires Greedy(info, s, request, col) && pages == PagesFor(info, s, |col|, Left(request, MemOf(info, col)))
    ensures Greedy(info, s, request, col + [pages])
  {
    hide PagesFor, MemOf;
    var more := col + [pages];
    forall i | 0 <= i < |more|
      ensures more[i] == PagesFor(info, s, i, Left(request, MemOf(info, more[..i])))
    {
      assert more[..i] == col[..i];
      if i == |col| {
        assert more[..i] == col;
      }
    }
  }

  lemma NoPages(info: seq<PageInfo>, s: nat, i: nat)
    requires i < |info| && info[i].size > 0 && forall j :: 0 <= j < |info| ==> s < |info[j].pages|
    ensures PagesFor(info, s, i, 0) == 0
  {
    assert 0 / info[i].size == 0;
    assert info[i].size * 0 == 0;
  }

  /** Once the request is met, nothing more is taken. */
  lemma {:induction false} GreedyDone(info: seq<PageInfo>, s: nat, request: nat, col: seq<nat>, i: nat)
    requires i <= |col| <= |info| && forall j :: 0 <= j < |info| ==> info[j].size > 0 && s < |info[j].pages|
    requires Greedy(info, s, request, col[..i]) && forall j :: i <= j < |col| ==> col[j] == 0
    requires i < |col| ==> request <= MemOf(info, col[..i])
    ensures Greedy(info, s, request, col)
    decreases |col|
  {
    hide PagesFor, MemOf, Greedy;
    if i == |col| {
      assert col[..i] == col;
    } else {
      var n := |col| - 1;
      var front := col[..n];
      assert front[..i] == col[..i];
      GreedyDone(info, s, request, front, i);
      ZeroTail(info, front, i);
      NoPages(info, s, n);
      GreedyMore(info, s, request, front, 0);
      assert col == front + [0];
    }
  }

  /** How a socket is served: tightly, and in the order of the sizes. */
  predicate Allots(info: seq<PageInfo>, s: nat, request: nat, col: seq<nat>)
    requires |col| == |info| && forall j :: 0 <= j < |info| ==> info[j].size > 0 && s < |info[j].pages|
  {
    Serves(info, s, request, col) && Greedy(info, s, request, col)
  }

  ghost function Column(used: array2<nat>, s: nat): (col: seq<nat>)
    requires s < used.Length1
    reads used
    ensures |col| == used.Length0 && forall j :: 0 <= j < |col| ==> col[j] == used[j, s]
  {
    seq(used.Length0, j requires 0 <= j < used.Length0 reads used => used[j, s])
  }

  // ---------- One socket ----------

  /** The remaining-memory loop: what the later sizes still hold. */
  method RemainingMem(info: seq<PageInfo>, s: nat, i: nat) returns (rem: nat)
    requires i < |info| && forall j :: 0 <= j < |info| ==> s < |info[j].pages|
    ensures rem == Capacity(info, s, i + 1)
  {
    rem := 0;
    for j := i + 1 to |info|
      invariant rem + Capacity(info, s, j) == Capacity(info, s, i + 1)
    {
      rem := rem + info[j].size * info[j].pages[s];
    }
  }

  lemma TakeWhole(mem: nat, size: nat, pages: nat)
    requires size > 0 && mem / size >= pages
    ensures size * pages <= mem
  {
  }

  lemma TakeSome(mem: nat, size: nat, pages: nat)
    requires size > 0 && mem / size < pages
    ensures size * (mem / size) <= mem < size * (mem / size) + size <= size * pages
  {
    assert size * (mem / size + 1) <= size * pages;
  }

  /** One pass of the size loop: takes whole pages of size `i`, and one page more when the sizes after
      it could not cover the rest. Returns the pages taken and the memory by which they overshoot. */
  method TakeSize(memory: array<nat>, s: nat, info: seq<PageInfo>, i: nat, used: array2<nat>, totalMem: nat)
    returns (totalMem': nat, pages: nat, ghost extra: nat)
    requires s < memory.Length == used.Length1 && i < used.Length0 == |info| && WellFormed(info, memory.Length)
    requires memory[s] <= totalMem
    modifies memory, used
    ensures forall t :: 0 <= t < memory.Length && t != s ==> memory[t] == old(memory[t])
    ensures forall j, t :: 0 <= j < |info| && 0 <= t < memory.Length && (j, t) != (i, s) ==>
              used[j, t] == old(used[j, t])
    ensures used[i, s] == pages <= info[i].pages[s] && pages == PagesFor(info, s, i, old(memory[s]))
    ensures old(memory[s]) + extra == info[i].size * pages + memory[s]
    ensures extra != 0 ==> memory[s] == 0 && pages > 0 && extra < info[i].size
    ensures old(memory[s]) <= Capacity(info, s, i) <==> memory[s] <= Capacity(info, s, i + 1)
    ensures totalMem' + old(memory[s]) == totalMem + memory[s]
  {
    var avail, size := info[i].pages[s], info[i].size;
    pages := if memory[s] / size < avail then memory[s] / size else avail;
    if pages < avail {
      TakeSome(memory[s], size, avail);
    } else {
      TakeWhole(memory[s], size, avail);
    }
    used[i, s] := pages;
    var curMem := size * pages;
    memory[s] := memory[s] - curMem;
    totalMem' := totalMem - curMem;
    extra := 0;
    if memory[s] != 0 && pages != avail {
      var remainingMem := RemainingMem(info, s, i);
      if remainingMem < memory[s] {
        curMem := if memory[s] < size then memory[s] else size;
        extra := size - curMem;
        memory[s] := memory[s] - curMem;
        totalMem' := totalMem' - curMem;
        used[i, s] := used[i, s] + 1;
        pages := pages + 1;
      }
    }
  }

  lemma ServesWhenDone(info: seq<PageInfo>, s: nat, request: nat, col: seq<nat>, i: nat, extra: nat)
    requires i <= |col| == |info| && forall j :: 0 <= j < |info| ==> s < |info[j].pages|
    requires forall j :: 0 <= j < |col| ==> col[j] <= info[j].pages[s]
    requires MemOf(info, col) == request + extra
    requires extra != 0 ==> i > 0 && col[i - 1] > 0 && extra < info[i - 1].size
    ensures Serves(info, s, request, col)
  {
    if extra != 0 {
      assert col[i - 1] > 0 && MemOf(info, col) - info[i - 1].size < request;
    }
  }

  lemma NothingTaken(info: seq<PageInfo>, s: nat)
    requires forall j :: 0 <= j < |info| ==> s < |info[j].pages|
    ensures MemOf(info, []) == 0 && Sum([]) == 0 && Capacity(info, s, |info|) == 0
    ensures (forall j :: 0 <= j < |info| ==> info[j].size > 0) ==> forall request :: Greedy(info, s, request, [])
  {
  }

  /** The allocation loop of one socket: it succeeds exactly when the request fits. */
  method AllocateSocket(memory: array<nat>, s: nat, info: seq<PageInfo>, used: array2<nat>, totalMem: nat,
                        totalPages: nat)
    returns (totalMem': nat, totalPages': nat)
    requires s < memory.Length == used.Length1 && used.Length0 == |info| && WellFormed(info, memory.Length)
    requires forall j :: 0 <= j < |info| ==> used[j, s] == 0
    requires memory[s] <= totalMem
    modifies memory, used
    ensures forall t :: 0 <= t < memory.Length && t != s ==> memory[t] == old(memory[t])
    ensures forall j, t :: 0 <= j < |info| && 0 <= t < memory.Length && t != s ==> used[j, t] == old(used[j, t])
    ensures totalMem' + old(memory[s]) == totalMem + memory[s]
    ensures memory[s] == 0 <==> old(memory[s]) <= Capacity(info, s, 0)
    ensures memory[s] == 0 ==> Allots(info, s, old(memory[s]), Column(used, s))
    ensures totalPages' == totalPages + Sum(Column(used, s))
  {
    hide MemOf, Sum, Capacity, Serves, PagesFor, Greedy;
    NothingTaken(info, s);
    totalMem', totalPages' := totalMem, totalPages;
    var i := 0;
    ghost var request := memory[s];
    ghost var col: seq<nat> := [];   // the part of column `s` written so far
    ghost var extra: nat := 0;       // memory by which the last page overshoots
    while i < |info| && memory[s] != 0
      invariant i == |col| <= |info|
      invariant forall j :: 0 <= j < i ==> used[j, s] == col[j] <= info[j].pages[s]
      invariant forall j :: i <= j < |info| ==> used[j, s] == 0
      invariant forall t :: 0 <= t < memory.Length && t != s ==> memory[t] == old(memory[t])
      invariant forall j, t :: 0 <= j < |info| && 0 <= t < memory.Length && t != s ==> used[j, t] == old(used[j, t])
      invariant MemOf(info, col) + memory[s] == request + extra && Greedy(info, s, request, col)
      invariant totalMem' + request == totalMem + memory[s]
      invariant totalPages' == totalPages + Sum(col)
      invariant request <= Capacity(info, s, 0) <==> memory[s] <= Capacity(info, s, i)
      invariant extra != 0 ==> memory[s] == 0 && i > 0 && col[i - 1] > 0 && extra < info[i - 1].size
      decreases |info| - i
    {
      var pages;
      totalMem', pages, extra := TakeSize(memory, s, info, i, used, totalMem');
      totalPages' := totalPages' + pages;
      GreedyMore(info, s, request, col, pages);
      MemAppend(info, col, pages);
      SumAppend(col, pages);
      col := col + [pages];
      i := i + 1;
    }
    ghost var full := Column(used, s);
    assert full[..i] == col;
    ZeroTail(info, full, i);
    if memory[s] == 0 {
      ServesWhenDone(info, s, request, full, i, extra);
      GreedyDone(info, s, request, full, i);
    }
  }

  // ---------- Spreading a total over the sockets ----------

  method GetSocketMemSize(info: seq<PageInfo>, s: nat) returns (size: nat)
    requires forall j :: 0 <= j < |info| ==> s < |info[j].pages|
    ensures size == Mounted(info, s)
  {
    size := 0;
    for i := 0 to |info|
      invariant size == MountedBelow(info, s, i)
    {
      if info[i].mounted {
        size := size + info[i].size * info[i].pages[s];
      }
    }
  }

  function Min(a: nat, b: nat): nat {
    if a < b then a else b
  }

  /** A socket's share of the total by its cores. */
  function CoreShare(total: nat, cpu: seq<nat>, s: nat): nat
    requires s < |cpu| && Sum(cpu) > 0
  {
    Proportion(total, cpu[s], Sum(cpu))
  }

  function Proportion(total: nat, part: nat, all: nat): nat
    requires all > 0
  {
    total * part / all
  }

  /** The share is the greatest one that is in proportion. */
  lemma ShareIsProportional(total: nat, cpu: seq<nat>, s: nat)
    requires s < |cpu| && Sum(cpu) > 0
    ensures Sum(cpu) * CoreShare(total, cpu, s) <= total * cpu[s] < Sum(cpu) * (CoreShare(total, cpu, s) + 1)
  {
    hide Sum;
    DivBounds(total * cpu[s], Sum(cpu));
  }

  lemma DivBounds(x: nat, m: nat)
    requires m > 0
    ensures m * (x / m) <= x < m * (x / m + 1)
  {
    assert x == m * (x / m) + x % m;
    assert m * (x / m + 1) == m * (x / m) + m;
  }

  /** The memory `taken` by the sockets below `s` is within the share of their cores. */
  predicate Paced(total: nat, cpu: seq<nat>, s: nat, taken: nat)
    requires s <= |cpu|
  {
    Sum(cpu) * taken <= total * Sum(cpu[..s])
  }

  lemma MulMono(a: nat, b: nat, c: nat)
    ensures b <= c ==> a * b <= a * c
    ensures a > 0 && b < c ==> a * b < a * c
  {
    if b <= c {
      assert a * (c - b) >= 0;
      assert a * c == a * b + a * (c - b);
    }
  }

  lemma MulAdd(a: nat, b: nat, c: nat)
    ensures a * (b + c) == a * b + a * c
  {
  }

  lemma DivScaled(x: nat, all: nat, d: nat)
    requires all > 0 && d <= x / all
    ensures all * d <= x
  {
    MulMono(all, d, x / all);
  }

  lemma {:induction false} SumPrefix(a: seq<nat>, i: nat)
    requires i <= |a|
    ensures Sum(a[..i]) <= Sum(a)
    ensures i < |a| ==> Sum(a[..i]) + a[i] <= Sum(a)
    ensures Sum(a[..i]) == Sum(a) ==> forall j :: i <= j < |a| ==> a[j] == 0
    decreases |a|
  {
    var n := |a| - 1;
    if i < |a| {
      SumPrefix(a[..n], i);
      assert a[..n][..i] == a[..i];
      if i < n {
        assert a[..n][i] == a[i];
      }
      forall j | i <= j < |a| && Sum(a[..i]) == Sum(a)
        ensures a[j] == 0
      {
        if j < n {
          assert a[..n][j] == a[j];
        }
      }
    } else {
      assert a[..i] == a;
    }
  }

  /** A share never exceeds what is left of the total. */
  lemma ShareLeft(total: nat, cpu: seq<nat>, s: nat, taken: nat, d: nat)
    requires s < |cpu| && Sum(cpu) > 0
    requires Paced(total, cpu, s, taken) && d <= CoreShare(total, cpu, s)
    ensures taken + d <= total && Paced(total, cpu, s + 1, taken + d)
  {
    hide Sum;
    var all, below, cores := Sum(cpu), Sum(cpu[..s]), cpu[s];
    DivScaled(total * cores, all, d);
    assert cpu[..s + 1] == cpu[..s] + [cores];
    SumAppend(cpu[..s], cores);
    SumPrefix(cpu, s + 1);
    ShareArithmetic(total, all, below, cores, taken, d);
  }

  lemma ShareArithmetic(total: nat, all: nat, below: nat, cores: nat, taken: nat, d: nat)
    requires all > 0 && below + cores <= all && all * taken <= total * below && all * d <= total * cores
    ensures all * (taken + d) <= total * (below + cores) && taken + d <= total
  {
    MulAdd(all, taken, d);
    MulAdd(total, below, cores);
    MulMono(total, below + cores, all);
    if taken + d > total {
      MulMono(all, total, taken + d);
    }
  }

  /** Once the total is used up, the sockets not yet visited have no cores. */
  lemma NoCoresLeft(total: nat, cpu: seq<nat>, s: nat)
    requires s <= |cpu| && Sum(cpu) > 0
    requires Paced(total, cpu, s, total)
    ensures forall t :: s <= t < |cpu| ==> CoreShare(total, cpu, t) == 0
  {
    hide Sum;
    SumPrefix(cpu, s);
    if total > 0 {
      MulMono(total, Sum(cpu[..s]), Sum(cpu));
      forall t | s <= t < |cpu|
        ensures CoreShare(total, cpu, t) == 0
      {
        assert total * cpu[t] == 0;
      }
    }
  }

  /** Sockets get more than their share one after the other: not before those in front of them are full. */
  ghost predicate InOrder(info: seq<PageInfo>, total: nat, cpu: seq<nat>, memory: seq<nat>)
    requires WellFormed(info, |memory|) && |cpu| == |memory| && Sum(cpu) > 0
  {
    forall s, t :: 0 <= s < t < |memory| && memory[t] > Min(CoreShare(total, cpu, t), Mounted(info, t)) ==>
      memory[s] == Mounted(info, s)
  }

  /** The automatic split of the total: each socket at least its share by cores, or all it has; none more than it
      has; and more than shares one socket after the other. */
  ghost predicate Spread(info: seq<PageInfo>, total: nat, cpu: seq<nat>, request: seq<nat>)
    requires WellFormed(info, |request|)
  {
    && |cpu| == |request| && Sum(cpu) > 0 && Sum(request) == total && InOrder(info, total, cpu, request)
    && (forall s :: 0 <= s < |request| ==>
          Min(CoreShare(total, cpu, s), Mounted(info, s)) <= request[s] <= Mounted(info, s))
  }

  /** Where two splits first differ, the one with less there has more later. */
  lemma {:induction false} MoreLater(a: seq<nat>, b: seq<nat>, s: nat) returns (t: nat)
    requires |a| == |b| && s < |a| && a[..s] == b[..s] && a[s] < b[s] && Sum(a) == Sum(b)
    ensures s < t < |a| && a[t] > b[t]
  {
    hide Sum;
    t := s + 1;
    while t < |a| && a[t] <= b[t]
      invariant s < t <= |a| && forall k :: s < k < t ==> a[k] <= b[k]
    {
      t := t + 1;
    }
    if t == |a| {
      LessSum(a, b, s);
      assert false;
    }
  }

  lemma {:induction false} LessSum(a: seq<nat>, b: seq<nat>, s: nat)
    requires |a| == |b| && s < |a| && a[..s] == b[..s] && a[s] < b[s] && forall k :: s < k < |a| ==> a[k] <= b[k]
    ensures Sum(a) < Sum(b)
  {
    hide Sum;
    var c := a[s := b[s]];
    SumUpdate(a, s, b[s]);
    forall k | 0 <= k < |c|
      ensures c[k] <= b[k]
    {
      if k < s {
        assert a[..s][k] == b[..s][k];
      }
    }
    SumLe(c, b);
  }

  /** The automatic split leaves no choice. */
  lemma SpreadUnique(info: seq<PageInfo>, total: nat, cpu: seq<nat>, a: seq<nat>, b: seq<nat>)
    requires |a| == |b| && WellFormed(info, |a|) && Spread(info, total, cpu, a) && Spread(info, total, cpu, b)
    ensures a == b
  {
    hide Sum, Mounted, CoreShare;
    var s := 0;
    while s < |a|
      invariant s <= |a| && a[..s] == b[..s]
    {
      if a[s] < b[s] {
        var t := MoreLater(a, b, s);
        assert false;
      } else if b[s] < a[s] {
        var t := MoreLater(b, a, s);
        assert false;
      }
      assert a[..s + 1] == a[..s] + [a[s]] && b[..s + 1] == b[..s] + [b[s]];
      s := s + 1;
    }
  }

  /** Nor does the order of the sizes. */
  lemma {:induction false} GreedyUnique(info: seq<PageInfo>, s: nat, request: nat, x: seq<nat>, y: seq<nat>, n: nat)
    requires |x| == |y| <= |info| && forall j :: 0 <= j < |info| ==> info[j].size > 0 && s < |info[j].pages|
    requires Greedy(info, s, request, x) && Greedy(info, s, request, y) && n <= |x|
    ensures x[..n] == y[..n]
  {
    hide PagesFor, MemOf, Left;
    if n > 0 {
      GreedyUnique(info, s, request, x, y, n - 1);
      assert x[..n] == x[..n - 1] + [x[n - 1]] && y[..n] == y[..n - 1] + [y[n - 1]];
    }
  }

  /** The first pass: each socket gets its share by cores, or all it has. */
  method SpreadByCores(memory: array<nat>, info: seq<PageInfo>, total: nat, cpu: seq<nat>) returns (left: nat)
    requires WellFormed(info, memory.Length) && |cpu| == memory.Length && Sum(cpu) > 0
    requires forall s :: 0 <= s < memory.Length ==> memory[s] == 0
    modifies memory
    ensures Sum(memory[..]) + left == total
    ensures forall s :: 0 <= s < memory.Length ==> memory[s] == Min(CoreShare(total, cpu, s), Mounted(info, s))
  {
    hide Sum, Mounted, CoreShare, Paced;
    SumZero(memory[..]);
    NothingPaced(total, cpu);
    left := total;
    var s := 0;
    while s < memory.Length && left != 0
      invariant s <= memory.Length
      invariant Sum(memory[..]) + left == total
      invariant Paced(total, cpu, s, total - left)
      invariant forall t :: 0 <= t < s ==> memory[t] == Min(CoreShare(total, cpu, t), Mounted(info, t))
      invariant forall t :: s <= t < memory.Length ==> memory[t] == 0
      decreases memory.Length - s
    {
      var avail := GetSocketMemSize(info, s);
      var defaultSize := Min(CoreShare(total, cpu, s), avail);
      ShareLeft(total, cpu, s, total - left, defaultSize);
      SumUpdate(memory[..], s, defaultSize);
      ghost var before := memory[..];
      memory[s] := defaultSize;
      assert memory[..] == before[s := defaultSize];
      left := left - defaultSize;
      s := s + 1;
    }
    if left == 0 {
      NoCoresLeft(total, cpu, s);
    }
  }

  /** The automatic distribution: all of the total is placed unless every socket is full, no socket gets
      more than it has, and each gets at least its share. */
  method SpreadMemory(memory: array<nat>, info: seq<PageInfo>, total: nat, cpu: seq<nat>) returns (left: nat)
    requires WellFormed(info, memory.Length) && |cpu| == memory.Length && Sum(cpu) > 0
    requires forall s :: 0 <= s < memory.Length ==> memory[s] == 0
    modifies memory
    ensures Sum(memory[..]) + left == total
    ensures forall s :: 0 <= s < memory.Length ==>
              Min(CoreShare(total, cpu, s), Mounted(info, s)) <= memory[s] <= Mounted(info, s)
    ensures left != 0 ==> forall s :: 0 <= s < memory.Length ==> memory[s] == Mounted(info, s)
    ensures InOrder(info, total, cpu, memory[..])
  {
    hide Sum, Mounted, CoreShare;
    left := SpreadByCores(memory, info, total, cpu);
    var s := 0;
    while s < memory.Length && left != 0
      invariant s <= memory.Length
      invariant Sum(memory[..]) + left == total
      invariant forall t :: 0 <= t < s ==>
                  Min(CoreShare(total, cpu, t), Mounted(info, t)) <= memory[t] <= Mounted(info, t)
      invariant left != 0 ==> forall t :: 0 <= t < s ==> memory[t] == Mounted(info, t)
      invariant forall t :: s <= t < memory.Length ==> memory[t] == Min(CoreShare(total, cpu, t), Mounted(info, t))
      invariant InOrder(info, total, cpu, memory[..])
      decreases memory.Length - s
    {
      var avail := GetSocketMemSize(info, s);
      var defaultSize := Min(avail - memory[s], left);
      SumUpdate(memory[..], s, memory[s] + defaultSize);
      ghost var before := memory[..];
      memory[s] := memory[s] + defaultSize;
      assert memory[..] == before[s := memory[s]];
      left := left - defaultSize;
      s := s + 1;
    }
  }

  lemma NothingPaced(total: nat, cpu: seq<nat>)
    ensures Paced(total, cpu, 0, 0)
  {
    assert Sum(cpu) * 0 == 0;
  }

  // ---------- The whole calculation ----------

  /** Mounted memory on each socket. */
  function MountedSizes(info: seq<PageInfo>, sockets: nat): (m: seq<nat>)
    requires WellFormed(info, sockets)
    ensures |m| == sockets && forall s :: 0 <= s < sockets ==> m[s] == Mounted(info, s)
  {
    seq(sockets, s requires 0 <= s < sockets => Mounted(info, s))
  }

  /** Pages taken on each socket. */
  ghost function PageCounts(used: array2<nat>): (c: seq<nat>)
    reads used
    ensures |c| == used.Length1 && forall s :: 0 <= s < |c| ==> c[s] == Sum(Column(used, s))
  {
    seq(used.Length1, s requires 0 <= s < used.Length1 reads used => Sum(Column(used, s)))
  }

  /** All the memory of each socket. */
  function Capacities(info: seq<PageInfo>, sockets: nat): (m: seq<nat>)
    requires WellFormed(info, sockets)
    ensures |m| == sockets && forall s :: 0 <= s < sockets ==> m[s] == Capacity(info, s, 0)
  {
    seq(sockets, s requires 0 <= s < sockets => Capacity(info, s, 0))
  }

  /** A total fits, with every size mounted, when all the sockets together can hold it; with none, only when it is
      nothing. */
  lemma TotalFits(info: seq<PageInfo>, total: nat, memory: seq<nat>)
    requires WellFormed(info, |memory|)
    ensures info != [] && (forall j :: 0 <= j < |info| ==> info[j].mounted) ==>
              (Fits(info, false, total, memory) <==> total <= Sum(Capacities(info, |memory|)))
    ensures info != [] && (forall j :: 0 <= j < |info| ==> !info[j].mounted) ==>
              (Fits(info, false, total, memory) <==> total == 0)
  {
    hide Sum, Mounted, Capacity;
    var m := MountedSizes(info, |memory|);
    forall s | 0 <= s < |memory|
      ensures (forall j :: 0 <= j < |info| ==> info[j].mounted) ==> m[s] == Capacity(info, s, 0)
      ensures (forall j :: 0 <= j < |info| ==> !info[j].mounted) ==> m[s] == 0
    {
      MountedAllOrNone(info, s);
    }
    if forall j :: 0 <= j < |info| ==> info[j].mounted {
      assert m == Capacities(info, |memory|);
    }
    if forall j :: 0 <= j < |info| ==> !info[j].mounted {
      SumZero(m);
    }
  }

  /** When the request can be met: per socket if it was given per socket, in total otherwise. */
  predicate Fits(info: seq<PageInfo>, forceSockets: bool, total: nat, memory: seq<nat>)
    requires WellFormed(info, |memory|)
  {
    && |info| > 0
    && if forceSockets then forall s :: 0 <= s < |memory| ==> memory[s] <= Capacity(info, s, 0)
       else total <= Sum(MountedSizes(info, |memory|))
  }

  lemma ZeroColumnServes(info: seq<PageInfo>, s: nat, col: seq<nat>)
    requires |col| == |info| && forall j :: 0 <= j < |info| ==> info[j].size > 0 && s < |info[j].pages|
    requires forall j :: 0 <= j < |col| ==> col[j] == 0
    ensures Allots(info, s, 0, col) && Sum(col) == 0
  {
    hide PagesFor, Greedy, MemOf, Sum, Capacity;
    ZeroTail(info, col, 0);
    NothingTaken(info, s);
    assert col[..0] == [];
    GreedyDone(info, s, 0, col, 0);
  }

  /** In automatic mode, memory is left over exactly when the total exceeds all mounted memory. */
  lemma SpreadFits(info: seq<PageInfo>, total: nat, request: seq<nat>, left: nat)
    requires WellFormed(info, |request|) && Sum(request) + left == total
    requires forall s :: 0 <= s < |request| ==> request[s] <= Mounted(info, s)
    requires left != 0 ==> forall s :: 0 <= s < |request| ==> request[s] == Mounted(info, s)
    ensures left == 0 <==> total <= Sum(MountedSizes(info, |request|))
    ensures forall s :: 0 <= s < |request| ==> request[s] <= Capacity(info, s, 0)
  {
    hide Sum, Mounted;
    var m := MountedSizes(info, |request|);
    SumLe(request, m);
    if left != 0 {
      assert request == m;
    }
    forall s | 0 <= s < |request|
      ensures request[s] <= Capacity(info, s, 0)
    {
      MountedCapacity(info, s);
    }
  }

  lemma MountedCapacity(info: seq<PageInfo>, s: nat)
    requires forall j :: 0 <= j < |info| ==> s < |info[j].pages|
    ensures Mounted(info, s) <= Capacity(info, s, 0)
  {
    MountedFits(info, s, |info|);
  }

  /** The loop over the sockets, with `left` memory of the total assigned to none of them. */
  method AllocateAll(memory: array<nat>, info: seq<PageInfo>, used: array2<nat>, total: nat, ghost left: nat)
    returns (numPages: int)
    requires WellFormed(info, memory.Length) && used.Length0 == |info| && used.Length1 == memory.Length
    requires forall j, s :: 0 <= j < |info| && 0 <= s < memory.Length ==> used[j, s] == 0
    requires Sum(memory[..]) + left == total
    modifies memory, used
    ensures numPages == -1 || numPages >= 0
    ensures numPages >= 0 <==>
              left == 0 && forall s :: 0 <= s < memory.Length ==> old(memory[s]) <= Capacity(info, s, 0)
    ensures numPages >= 0 ==> forall s :: 0 <= s < memory.Length ==> Allots(info, s, old(memory[s]), Column(used, s))
    ensures numPages >= 0 ==> numPages == Sum(PageCounts(used))
  {
    hide Sum, Capacity, Allots;
    ghost var request := memory[..];
    var totalMem, totalPages := total, 0;
    var s := 0;
    ghost var counts: seq<nat> := [];
    SumZero(request[..0]);
    SumZero(counts);
    while s < memory.Length && totalMem != 0
      invariant s <= memory.Length && |counts| == s
      invariant forall t :: s <= t < memory.Length ==> memory[t] == request[t]
      invariant forall j, t :: 0 <= j < |info| && s <= t < memory.Length ==> used[j, t] == 0
      invariant forall t :: 0 <= t < s ==> counts[t] == Sum(Column(used, t))
      invariant forall t :: 0 <= t < s ==> Allots(info, t, request[t], Column(used, t))
      invariant forall t :: 0 <= t < s ==> request[t] <= Capacity(info, t, 0)
      invariant totalMem + Sum(request[..s]) == left + Sum(request)
      invariant totalPages == Sum(counts)
      decreases memory.Length - s
    {
      SumPrefix(request, s);
      label before:
      totalMem, totalPages := AllocateSocket(memory, s, info, used, totalMem, totalPages);
      forall t | 0 <= t < s
        ensures Column(used, t) == old@before(Column(used, t))
      {
      }
      if memory[s] > 0 {
        return -1;
      }
      assert request[..s + 1] == request[..s] + [request[s]];
      SumAppend(request[..s], request[s]);
      SumAppend(counts, Sum(Column(used, s)));
      counts := counts + [Sum(Column(used, s))];
      s := s + 1;
    }
    SumPrefix(request, s);
    if totalMem > 0 {
      assert request[..s] == request;
      return -1;
    }
    forall t | s <= t < memory.Length
      ensures Allots(info, t, 0, Column(used, t)) && Sum(Column(used, t)) == 0
    {
      ZeroColumnServes(info, t, Column(used, t));
    }
    ghost var all := PageCounts(used);
    assert all[..s] == counts;
    SumZeroTail(all, s);
    numPages := totalPages;
  }

  /** `calc_num_pages_per_socket`. It fails exactly when the request does not fit; otherwise every socket
      is served as tightly as whole pages allow, and the result counts the pages taken. `request` is what
      was asked of each socket: the caller's amounts, or the automatic distribution of the total. */
  method CalcNumPagesPerSocket(memory: array<nat>, info: seq<PageInfo>, used: array2<nat>, total: nat,
                               forceSockets: bool, cpu: seq<nat>)
    returns (numPages: int, ghost request: seq<nat>)
    requires WellFormed(info, memory.Length) && used.Length0 == |info| && used.Length1 == memory.Length
    requires forall j, s :: 0 <= j < |info| && 0 <= s < memory.Length ==> used[j, s] == 0
    requires forceSockets ==> Sum(memory[..]) == total
    requires !forceSockets ==> forall s :: 0 <= s < memory.Length ==> memory[s] == 0
    requires !forceSockets ==> |cpu| == memory.Length && Sum(cpu) > 0
    modifies memory, used
    ensures numPages == -1 || numPages >= 0
    ensures numPages >= 0 <==> Fits(info, forceSockets, total, old(memory[..]))
    ensures info != [] && !forceSockets && (forall j :: 0 <= j < |info| ==> info[j].mounted) ==>
              (numPages >= 0 <==> total <= Sum(Capacities(info, memory.Length)))
    ensures |request| == memory.Length && (forceSockets ==> request == old(memory[..]))
    ensures numPages >= 0 && !forceSockets ==> Spread(info, total, cpu, request)
    ensures numPages >= 0 ==> forall s :: 0 <= s < |request| ==> Allots(info, s, request[s], Column(used, s))
    ensures numPages >= 0 ==> numPages == Sum(PageCounts(used))
  {
    hide Sum, Mounted, CoreShare, Capacity, Allots;
    request := memory[..];
    if |info| == 0 {
      return -1, request;
    }
    ghost var left: nat := 0;
    if !forceSockets {
      left := SpreadMemory(memory, info, total, cpu);
      request := memory[..];
      SpreadFits(info, total, request, left);
    }
    TotalFits(info, total, request);
    numPages := AllocateAll(memory, info, used, total, left);
  }

  lemma {:induction false} SumZeroTail(a: seq<nat>, i: nat)
    requires i <= |a| && forall j :: i <= j < |a| ==> a[j] == 0
    ensures Sum(a) == Sum(a[..i])
    decreases |a|
  {
    if i < |a| {
      SumZeroTail(a[..|a| - 1], i);
      assert a[..|a| - 1][..i] == a[..i];
    } else {
      assert a[..i] == a;
    }
  }
}
