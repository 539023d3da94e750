/** NUMA steering in the first mapping of the huge pages (`map_all_hugepages` with `orig` set,
    deps/dpdk-extras/dpdk-patches-17.08/eal_memory.c): pages go first to the nodes that memory was
    requested from, then round robin over them. */
module NumaSteering {
  import opened Bits

  // ---------- The saved copy of a 64-bit amount in an `int` ----------

  function ToInt(v: nat): int {
    var r := v % UNSIGNED;
    if r >= 0x8000_0000 then r - UNSIGNED else r
  }

  function FromInt(x: int): nat {
    x % WORD
  }

  /** The amount survives the round trip through `essential_prev` exactly when it fits in an `int`, or is
      one of the largest 2^31 amounts, which sign extension happens to restore. */
  lemma SavedExactly(v: nat)
    requires v < WORD
    ensures FromInt(ToInt(v)) == v <==> v < 0x8000_0000 || v >= WORD - 0x8000_0000
  {
  }

  /** A request of exactly 2 GB on a node comes back as an enormous one. */
  lemma TwoGigabytesLost()
    ensures FromInt(ToInt(0x8000_0000)) == 0xFFFF_FFFF_8000_0000
  {
  }

  // ---------- Choosing a node ----------

  /** One past the last node that memory was requested from. */
  method MaxNode(socketMem: seq<nat>) returns (maxnode: nat)
    ensures maxnode <= |socketMem|
    ensures maxnode > 0 ==> socketMem[maxnode - 1] != 0
    ensures forall i :: maxnode <= i < |socketMem| ==> socketMem[i] == 0
  {
    maxnode := 0;
    for i := 0 to |socketMem|
      invariant maxnode <= i
      invariant maxnode > 0 ==> socketMem[maxnode - 1] != 0
      invariant forall k :: maxnode <= k < i ==> socketMem[k] == 0
    {
      if socketMem[i] != 0 {
        maxnode := i + 1;
      }
    }
  }

  /** Nothing is still owed to any node. */
  predicate AllServed(essential: seq<nat>, maxnode: nat)
    requires maxnode <= |essential|
  {
    forall j :: 0 <= j < maxnode ==> essential[j] == 0
  }

  /** The cyclic search for the next node with requested memory. It ends at the last requested node at the
      latest, so it never comes around. */
  method NextRequested(socketMem: seq<nat>, maxnode: nat, start: nat) returns (node: nat)
    requires start < maxnode <= |socketMem| && socketMem[maxnode - 1] != 0
    ensures start <= node < maxnode && socketMem[node] != 0
    ensures forall k :: start <= k < node ==> socketMem[k] == 0
  {
    node := start;
    while socketMem[node] == 0
      invariant start <= node < maxnode
      invariant forall k :: start <= k < node ==> socketMem[k] == 0
      decreases maxnode - node
    {
      node := node + 1;
      SmallMod(node, maxnode);
      node := node % maxnode;
    }
  }

  function Reduced(amount: nat, sz: nat): nat {
    if amount < sz then 0 else amount - sz
  }

  /** What was decided for one page. */
  datatype Choice = Choice(node: nat, roundRobin: bool)

  /** The amounts owed after the choice `c`. */
  function After(essential: seq<nat>, c: Choice, sz: nat): seq<nat>
    requires c.node < |essential|
  {
    if c.roundRobin then essential else essential[c.node := Reduced(essential[c.node], sz)]
  }

  /** The choice made for one page: the first node still owed memory, else the next requested one. */
  method PickNode(essential: array<nat>, socketMem: seq<nat>, maxnode: nat, nodeId: int, sz: nat)
    returns (node: nat, prev: int, roundRobin: bool)
    requires 0 < maxnode <= |socketMem| == essential.Length && socketMem[maxnode - 1] != 0 && -1 <= nodeId < maxnode
    requires forall j :: 0 <= j < maxnode && essential[j] != 0 ==> socketMem[j] != 0
    modifies essential
    ensures node < maxnode && socketMem[node] != 0
    ensures roundRobin <==> AllServed(old(essential[..]), maxnode)
    ensures !roundRobin ==> old(essential[node]) != 0 && forall j :: 0 <= j < node ==> old(essential[j]) == 0
    ensures roundRobin ==>
              (nodeId + 1) % maxnode <= node && forall k :: (nodeId + 1) % maxnode <= k < node ==> socketMem[k] == 0
    ensures prev == ToInt(old(essential[node]))
    ensures essential[..] == After(old(essential[..]), Choice(node, roundRobin), sz)
    ensures forall j :: 0 <= j < maxnode && essential[j] != 0 ==> socketMem[j] != 0
  {
    var j := 0;
    while j < maxnode && essential[j] == 0
      invariant j <= maxnode && forall k :: 0 <= k < j ==> essential[k] == 0
    {
      j := j + 1;
    }
    if j == maxnode {
      node := NextRequested(socketMem, maxnode, (nodeId + 1) % maxnode);
      prev, roundRobin := 0, true;
    } else {
      node, prev, roundRobin := j, ToInt(essential[j]), false;
      if essential[j] < sz {
        essential[j] := 0;
      } else {
        essential[j] := essential[j] - sz;
      }
    }
  }

  // ---------- A whole pass ----------

  /** Pages given to node `j` because memory was owed to it. */
  function Placed(trace: seq<Choice>, j: nat): nat {
    if trace == [] then 0
    else Placed(trace[..|trace| - 1], j) + if trace[|trace| - 1] == Choice(j, false) then 1 else 0
  }

  lemma PlacedAppend(trace: seq<Choice>, c: Choice, j: nat)
    ensures Placed(trace + [c], j) == Placed(trace, j) + if c == Choice(j, false) then 1 else 0
  {
    assert (trace + [c])[..|trace|] == trace;
  }

  /** After `n` pages for a node that was owed `owed`, `rest` is still owed, and no page was more than needed. */
  predicate Account(owed: nat, sz: nat, n: nat, rest: nat) {
    && rest == (if owed < sz * n then 0 else owed - sz * n)
    && (n > 0 ==> sz * (n - 1) < owed)
  }

  lemma AccountNext(owed: nat, sz: nat, n: nat, rest: nat)
    requires Account(owed, sz, n, rest) && rest > 0
    ensures Account(owed, sz, n + 1, Reduced(rest, sz))
  {
    assert sz * (n + 1) == sz * n + sz;
  }

  lemma AccountStart(owed: nat, sz: nat)
    ensures Account(owed, sz, 0, owed)
  {
  }

  /** Paid in full means exactly the pages it takes: the owed amount rounded up to pages. */
  lemma AccountSettled(owed: nat, sz: nat, n: nat)
    requires sz > 0 && Account(owed, sz, n, 0)
    ensures n == (owed + sz - 1) / sz
  {
    assert owed <= sz * n;
    assert n > 0 ==> sz * n == sz * (n - 1) + sz;
    var q := (owed + sz - 1) / sz;
    var r := (owed + sz - 1) % sz;
    assert owed + sz - 1 == sz * q + r;
    QuotientUnique(sz, q, r, n, owed + sz - 1 - sz * n);
  }

  lemma QuotientUnique(m: nat, q: int, r: int, q': int, r': int)
    requires m > 0 && m * q + r == m * q' + r' && 0 <= r < m && 0 <= r' < m
    ensures q == q'
  {
    assert m * (q - q') == r' - r;
    MulSign(m, q - q');
  }

  /** What each node is still owed after the choices in `trace`. */
  ghost predicate Accounts(owed: seq<nat>, sz: nat, trace: seq<Choice>, essential: seq<nat>) {
    |essential| == |owed| && forall j :: 0 <= j < |owed| ==> Account(owed[j], sz, Placed(trace, j), essential[j])
  }

  lemma AccountsStart(owed: seq<nat>, sz: nat)
    ensures Accounts(owed, sz, [], owed)
  {
    forall j | 0 <= j < |owed|
      ensures Account(owed[j], sz, Placed([], j), owed[j])
    {
      AccountStart(owed[j], sz);
    }
  }

  lemma AccountsMore(owed: seq<nat>, sz: nat, trace: seq<Choice>, essential: seq<nat>, c: Choice)
    requires Accounts(owed, sz, trace, essential) && c.node < |owed| && (!c.roundRobin ==> essential[c.node] > 0)
    ensures Accounts(owed, sz, trace + [c], After(essential, c, sz))
  {
    hide Account, Placed;
    forall j | 0 <= j < |owed|
      ensures Placed(trace + [c], j) == Placed(trace, j) + if c == Choice(j, false) then 1 else 0
    {
      PlacedAppend(trace, c, j);
    }
    if !c.roundRobin {
      AccountNext(owed[c.node], sz, Placed(trace, c.node), essential[c.node]);
    }
  }

  /** The node of the last choice, -1 before the first. */
  function LastNode(trace: seq<Choice>): int {
    if trace == [] then -1 else trace[|trace| - 1].node
  }

  /** `node` is the requested node that comes after `prev`, around the end if need be. */
  ghost predicate IsNext(socketMem: seq<nat>, prev: int, node: nat)
    requires -1 <= prev < |socketMem| && node < |socketMem|
  {
    && socketMem[node] != 0
    && (prev < node ==> forall k :: prev < k < node ==> socketMem[k] == 0)
    && (node <= prev ==> forall k :: prev < k < |socketMem| || 0 <= k < node ==> socketMem[k] == 0)
  }

  lemma SearchIsNext(socketMem: seq<nat>, maxnode: nat, prev: int, node: nat)
    requires 0 < maxnode <= |socketMem| && -1 <= prev < maxnode
    requires forall k :: maxnode <= k < |socketMem| ==> socketMem[k] == 0
    requires (prev + 1) % maxnode <= node < maxnode && socketMem[node] != 0
    requires forall k :: (prev + 1) % maxnode <= k < node ==> socketMem[k] == 0
    ensures IsNext(socketMem, prev, node)
  {
    if prev + 1 < maxnode {
      SmallMod(prev + 1, maxnode);
    } else {
      assert maxnode % maxnode == 0;
    }
  }

  /** A legal choice after `trace`: a requested node; round robin only when every node has got all it was
      owed, and then the next requested node; otherwise the first node that has not. */
  ghost predicate Legal(owed: seq<nat>, socketMem: seq<nat>, sz: nat, trace: seq<Choice>, c: Choice)
    requires |owed| == |socketMem|
  {
    && c.node < |owed| && socketMem[c.node] != 0
    && (c.roundRobin ==> forall j :: 0 <= j < |owed| ==> Account(owed[j], sz, Placed(trace, j), 0))
    && (c.roundRobin ==> LastNode(trace) < |socketMem| && IsNext(socketMem, LastNode(trace), c.node))
    && (!c.roundRobin ==> sz * Placed(trace, c.node) < owed[c.node])
    && (!c.roundRobin ==> forall j :: 0 <= j < c.node ==> Account(owed[j], sz, Placed(trace, j), 0))
  }

  ghost predicate AllLegal(owed: seq<nat>, socketMem: seq<nat>, sz: nat, trace: seq<Choice>)
    requires |owed| == |socketMem|
  {
    forall t :: 0 <= t < |trace| ==> Legal(owed, socketMem, sz, trace[..t], trace[t])
  }

  lemma AllLegalMore(owed: seq<nat>, socketMem: seq<nat>, sz: nat, trace: seq<Choice>, c: Choice)
    requires |owed| == |socketMem| && AllLegal(owed, socketMem, sz, trace) && Legal(owed, socketMem, sz, trace, c)
    ensures AllLegal(owed, socketMem, sz, trace + [c])
  {
    hide Legal;
    var more := trace + [c];
    forall t | 0 <= t < |more|
      ensures Legal(owed, socketMem, sz, more[..t], more[t])
    {
      assert more[..t] == trace[..t];
      if t == |trace| {
        assert trace[..t] == trace;
      }
    }
  }

  lemma LegalChoice(owed: seq<nat>, socketMem: seq<nat>, sz: nat, trace: seq<Choice>, essential: seq<nat>, maxnode: nat,
                    c: Choice)
    requires Accounts(owed, sz, trace, essential) && |owed| == |socketMem| && maxnode <= |owed|
    requires forall j :: 0 <= j < |owed| && essential[j] != 0 ==> j < maxnode
    requires c.node < maxnode && socketMem[c.node] != 0
    requires LastNode(trace) < |socketMem|
    requires c.roundRobin ==> AllServed(essential, maxnode) && IsNext(socketMem, LastNode(trace), c.node)
    requires !c.roundRobin ==> essential[c.node] != 0 && forall j :: 0 <= j < c.node ==> essential[j] == 0
    ensures Legal(owed, socketMem, sz, trace, c)
  {
    hide Placed, IsNext;
    assert Account(owed[c.node], sz, Placed(trace, c.node), essential[c.node]);
    if c.roundRobin {
      forall j | 0 <= j < |owed|
        ensures Account(owed[j], sz, Placed(trace, j), 0)
      {
        assert Account(owed[j], sz, Placed(trace, j), essential[j]);
      }
    } else {
      forall j | 0 <= j < c.node
        ensures Account(owed[j], sz, Placed(trace, j), 0)
      {
        assert Account(owed[j], sz, Placed(trace, j), essential[j]);
      }
    }
  }

  /** The choice for one more page of a pass. */
  method Steer(essential: array<nat>, socketMem: seq<nat>, maxnode: nat, nodeId: int, sz: nat, trace: seq<Choice>,
               ghost owed: seq<nat>)
    returns (node: nat, prev: int, trace': seq<Choice>)
    requires 0 < maxnode <= |socketMem| == essential.Length && socketMem[maxnode - 1] != 0 && -1 <= nodeId < maxnode
    requires forall j :: maxnode <= j < |socketMem| ==> socketMem[j] == 0
    requires forall j :: 0 <= j < essential.Length && essential[j] != 0 ==> socketMem[j] != 0
    requires |owed| == |socketMem| && AllLegal(owed, socketMem, sz, trace) && Accounts(owed, sz, trace, essential[..])
    requires nodeId == LastNode(trace)
    modifies essential
    ensures node < maxnode && prev == ToInt(old(essential[node]))
    ensures |trace'| == |trace| + 1 && trace'[..|trace|] == trace
    ensures trace'[|trace|].node == node && AllLegal(owed, socketMem, sz, trace')
    ensures Accounts(owed, sz, trace', essential[..])
    ensures essential[..] == After(old(essential[..]), trace'[|trace|], sz)
    ensures forall j :: 0 <= j < essential.Length && essential[j] != 0 ==> socketMem[j] != 0
  {
    hide Accounts, Legal, AllLegal, ToInt, Reduced, IsNext;
    ghost var before := essential[..];
    var roundRobin;
    node, prev, roundRobin := PickNode(essential, socketMem, maxnode, nodeId, sz);
    var c := Choice(node, roundRobin);
    AccountsSize(owed, sz, trace, before);
    if roundRobin {
      SearchIsNext(socketMem, maxnode, nodeId, node);
    }
    LegalChoice(owed, socketMem, sz, trace, before, maxnode, c);
    AllLegalMore(owed, socketMem, sz, trace, c);
    AccountsMore(owed, sz, trace, before, c);
    trace' := trace + [c];
  }

  lemma AccountsSize(owed: seq<nat>, sz: nat, trace: seq<Choice>, essential: seq<nat>)
    requires Accounts(owed, sz, trace, essential)
    ensures |essential| == |owed|
  {
  }

  /** The first mapping pass, with the kernel as an oracle: `stopsAt` says at which page opening or mapping
      fails, `sigbusAt` at which the page fault does, `lockOk` which page can be locked after that. Every
      choice is legal. The amounts still owed follow from the choices, except after a SIGBUS: then the last
      choice is taken back, and its node is owed what survives the saved copy of the amount it was owed. */
  method MapOriginal(numPages: nat, socketMem: seq<nat>, essential: array<nat>, sz: nat, stopsAt: nat -> bool,
                     sigbusAt: nat -> bool, lockOk: nat -> bool)
    returns (mapped: nat, trace: seq<Choice>, sigbus: bool, ghost before: seq<nat>)
    requires |socketMem| == essential.Length
    requires forall j :: 0 <= j < essential.Length && essential[j] != 0 ==> socketMem[j] != 0
    modifies essential
    ensures mapped <= numPages && forall i :: 0 <= i < mapped ==> !stopsAt(i) && !sigbusAt(i) && lockOk(i)
    ensures mapped < numPages ==> stopsAt(mapped) || sigbusAt(mapped) || !lockOk(mapped)
    ensures sigbus <==> mapped < numPages && !stopsAt(mapped) && sigbusAt(mapped)
    ensures (forall j :: 0 <= j < |socketMem| ==> socketMem[j] == 0) ==> trace == []
    ensures (exists j :: 0 <= j < |socketMem| && socketMem[j] != 0) ==>
              |trace| == if mapped < numPages then mapped + 1 else mapped
    ensures AllLegal(old(essential[..]), socketMem, sz, trace)
    ensures !sigbus ==> Accounts(old(essential[..]), sz, trace, essential[..])
    ensures sigbus && trace == [] ==> essential[..] == old(essential[..])
    ensures sigbus && trace != [] ==> Accounts(old(essential[..]), sz, trace[..|trace| - 1], before)
    ensures sigbus && trace != [] ==> trace[|trace| - 1].node < |before|
    ensures sigbus && trace != [] ==>
              var node := trace[|trace| - 1].node; essential[..] == before[node := FromInt(ToInt(before[node]))]
  {
    hide Accounts, AllLegal, ToInt, FromInt, Reduced;
    ghost var owed := essential[..];
    var maxnode := MaxNode(socketMem);
    var nodeId := -1;
    trace, sigbus, mapped, before := [], false, 0, owed;
    NothingChosen(owed, socketMem, sz);
    while mapped < numPages
      invariant forall i :: 0 <= i < mapped ==> !stopsAt(i) && !sigbusAt(i) && lockOk(i)
      invariant maxnode > 0 ==> nodeId == LastNode(trace)
      invariant mapped <= numPages && |trace| == (if maxnode == 0 then 0 else mapped)
      invariant -1 <= nodeId && (maxnode > 0 ==> nodeId < maxnode)
      invariant !sigbus && Accounts(owed, sz, trace, essential[..]) && (maxnode == 0 ==> essential[..] == owed)
      invariant forall j :: 0 <= j < essential.Length && essential[j] != 0 ==> socketMem[j] != 0
      invariant AllLegal(owed, socketMem, sz, trace)
      decreases numPages - mapped
    {
      before := essential[..];
      var prev := 0;
      if maxnode > 0 {
        nodeId, prev, trace := Steer(essential, socketMem, maxnode, nodeId, sz, trace, owed);
      }
      if stopsAt(mapped) {
        return;
      }
      if sigbusAt(mapped) {
        if maxnode > 0 {
          essential[nodeId] := FromInt(prev);
          assert essential[..] == before[nodeId := FromInt(ToInt(before[nodeId]))];
        }
        sigbus := true;
        return;
      }
      if !lockOk(mapped) {
        return;
      }
      mapped := mapped + 1;
    }
  }

  lemma NothingChosen(owed: seq<nat>, socketMem: seq<nat>, sz: nat)
    requires |owed| == |socketMem|
    ensures AllLegal(owed, socketMem, sz, []) && Accounts(owed, sz, [], owed)
  {
    AccountsStart(owed, sz);
  }

  /** A SIGBUS leaves what was owed before the page exactly when the saved copy can hold it. */
  lemma SigbusRestores(before: seq<nat>, node: nat)
    requires node < |before| && before[node] < WORD
    ensures before[node := FromInt(ToInt(before[node]))] == before <==>
              before[node] < 0x8000_0000 || before[node] >= WORD - 0x8000_0000
  {
    hide FromInt, ToInt;
    SavedExactly(before[node]);
    assert before[node := FromInt(ToInt(before[node]))][node] == FromInt(ToInt(before[node]));
  }

  // ---------- Round robin is fair ----------

  /** The nodes chosen round robin, in order. */
  function RoundRobins(trace: seq<Choice>): seq<nat> {
    if trace == [] then []
    else
      var n := |trace| - 1;
      RoundRobins(trace[..n]) + if trace[n].roundRobin then [trace[n].node] else []
  }

  /** Requested nodes, each the next one after its predecessor. */
  ghost predicate Cyclic(socketMem: seq<nat>, picks: seq<nat>) {
    && (forall t :: 0 <= t < |picks| ==> picks[t] < |socketMem| && socketMem[picks[t]] != 0)
    && (forall t :: 0 < t < |picks| ==> IsNext(socketMem, picks[t - 1], picks[t]))
  }

  lemma {:induction false} PlacedPrefix(trace: seq<Choice>, n: nat, j: nat)
    requires n <= |trace|
    ensures Placed(trace[..n], j) <= Placed(trace, j)
    decreases |trace|
  {
    if n < |trace| {
      PlacedPrefix(trace[..|trace| - 1], n, j);
      assert trace[..|trace| - 1][..n] == trace[..n];
    } else {
      assert trace[..n] == trace;
    }
  }

  lemma MulOrder(m: nat, a: nat, b: nat)
    requires a <= b
    ensures m * a <= m * b
  {
    assert m * b == m * a + m * (b - a);
  }

  /** Once every node has got what it was owed, the pass goes on round robin. */
  lemma StaysRound(owed: seq<nat>, socketMem: seq<nat>, sz: nat, trace: seq<Choice>, t: nat, u: nat)
    requires |owed| == |socketMem| && AllLegal(owed, socketMem, sz, trace) && t < u < |trace| && trace[t].roundRobin
    ensures trace[u].roundRobin
  {
    hide Placed, IsNext;
    var j := trace[u].node;
    assert Legal(owed, socketMem, sz, trace[..t], trace[t]) && Legal(owed, socketMem, sz, trace[..u], trace[u]);
    assert trace[..u][..t] == trace[..t];
    PlacedPrefix(trace[..u], t, j);
    MulOrder(sz, Placed(trace[..t], j), Placed(trace[..u], j));
  }

  lemma LegalPrefix(owed: seq<nat>, socketMem: seq<nat>, sz: nat, trace: seq<Choice>, n: nat)
    requires |owed| == |socketMem| && AllLegal(owed, socketMem, sz, trace) && n <= |trace|
    ensures AllLegal(owed, socketMem, sz, trace[..n])
    ensures n < |trace| ==> Legal(owed, socketMem, sz, trace[..n], trace[n])
  {
    hide Legal;
    var front := trace[..n];
    forall t | 0 <= t < n
      ensures Legal(owed, socketMem, sz, front[..t], front[t])
    {
      assert front[..t] == trace[..t];
    }
  }

  lemma CyclicMore(socketMem: seq<nat>, picks: seq<nat>, node: nat)
    requires Cyclic(socketMem, picks) && node < |socketMem| && socketMem[node] != 0
    requires picks != [] ==> IsNext(socketMem, picks[|picks| - 1], node)
    ensures Cyclic(socketMem, picks + [node])
  {
    hide IsNext;
  }

  lemma LegalRoundRobin(owed: seq<nat>, socketMem: seq<nat>, sz: nat, trace: seq<Choice>, c: Choice)
    requires |owed| == |socketMem| && Legal(owed, socketMem, sz, trace, c) && c.roundRobin
    ensures c.node < |socketMem| && socketMem[c.node] != 0
    ensures LastNode(trace) < |socketMem| && IsNext(socketMem, LastNode(trace), c.node)
  {
    hide Placed, IsNext, Account;
  }

  /** The choices, if any was round robin, end with one that was. */
  predicate EndsRound(trace: seq<Choice>) {
    var picks := RoundRobins(trace);
    picks != [] ==> trace != [] && trace[|trace| - 1].roundRobin && picks[|picks| - 1] == LastNode(trace)
  }

  lemma RoundRobinsMore(trace: seq<Choice>, c: Choice)
    ensures RoundRobins(trace + [c]) == RoundRobins(trace) + if c.roundRobin then [c.node] else []
    ensures EndsRound(trace) && (RoundRobins(trace) != [] ==> c.roundRobin) ==> EndsRound(trace + [c])
  {
    var more := trace + [c];
    assert more[..|more| - 1] == trace;
  }

  lemma {:induction false} RoundRobinsCyclic(owed: seq<nat>, socketMem: seq<nat>, sz: nat, trace: seq<Choice>)
    requires |owed| == |socketMem| && AllLegal(owed, socketMem, sz, trace)
    ensures Cyclic(socketMem, RoundRobins(trace)) && EndsRound(trace)
    decreases |trace|
  {
    if trace != [] {
      hide Legal, AllLegal, IsNext, Cyclic, RoundRobins;
      var n := |trace| - 1;
      var front, c := trace[..n], trace[n];
      assert front + [c] == trace;
      LegalPrefix(owed, socketMem, sz, trace, n);
      RoundRobinsCyclic(owed, socketMem, sz, front);
      if RoundRobins(front) != [] {
        StaysRound(owed, socketMem, sz, trace, n - 1, n);
      }
      RoundRobinsMore(front, c);
      if c.roundRobin {
        LegalRoundRobin(owed, socketMem, sz, front, c);
        CyclicMore(socketMem, RoundRobins(front), c.node);
      } else {
        assert RoundRobins(trace) == RoundRobins(front);
      }
    }
  }

  function Tally(picks: seq<nat>, x: nat): nat {
    if picks == [] then 0 else Tally(picks[..|picks| - 1], x) + if picks[|picks| - 1] == x then 1 else 0
  }

  /** `x` is met on the way from `first` to `last`. */
  predicate InArc(first: nat, last: nat, x: nat) {
    if first <= last then first <= x <= last else first <= x || x <= last
  }

  /** Every requested node was chosen `rounds` times, and once more on the way from the first to the last choice. */
  ghost predicate Even(socketMem: seq<nat>, picks: seq<nat>, rounds: nat)
    requires picks != []
  {
    forall x :: 0 <= x < |socketMem| && socketMem[x] != 0 ==>
      Tally(picks, x) == rounds + if InArc(picks[0], picks[|picks| - 1], x) then 1 else 0
  }

  /** The next node closes the circle, or is the one node that the way grows by. */
  lemma ArcGrows(socketMem: seq<nat>, first: nat, last: nat, next: nat, x: nat)
    requires first < |socketMem| && last < |socketMem| && next < |socketMem| && x < |socketMem|
    requires socketMem[first] != 0 && socketMem[x] != 0 && IsNext(socketMem, last, next)
    ensures next == first ==> InArc(first, last, x)
    ensures next != first ==>
              !InArc(first, last, next) && (InArc(first, next, x) <==> InArc(first, last, x) || x == next)
  {
  }

  lemma {:induction false} RoundsEven(socketMem: seq<nat>, picks: seq<nat>) returns (rounds: nat)
    requires picks != [] && Cyclic(socketMem, picks)
    ensures Even(socketMem, picks, rounds)
    decreases |picks|
  {
    hide IsNext, InArc;
    var n := |picks| - 1;
    var front := picks[..n];
    if n == 0 {
      rounds := 0;
      forall x | 0 <= x < |socketMem| && socketMem[x] != 0
        ensures Tally(picks, x) == if InArc(picks[0], picks[0], x) then 1 else 0
      {
        ArcOfOne(picks[0], x);
      }
    } else {
      var q := RoundsEven(socketMem, front);
      rounds := if picks[n] == picks[0] then q + 1 else q;
      forall x | 0 <= x < |socketMem| && socketMem[x] != 0
        ensures Tally(picks, x) == rounds + if InArc(picks[0], picks[n], x) then 1 else 0
      {
        ArcGrows(socketMem, picks[0], picks[n - 1], picks[n], x);
        ArcOfOne(picks[0], x);
      }
    }
  }

  lemma ArcOfOne(first: nat, x: nat)
    ensures InArc(first, first, x) <==> x == first
  {
  }

  /** In every pass, the pages that two requested nodes get round robin differ by at most one. */
  lemma RoundRobinFair(owed: seq<nat>, socketMem: seq<nat>, sz: nat, trace: seq<Choice>, i: nat, j: nat)
    requires |owed| == |socketMem| && AllLegal(owed, socketMem, sz, trace)
    requires i < |socketMem| && j < |socketMem| && socketMem[i] != 0 && socketMem[j] != 0
    ensures Tally(RoundRobins(trace), i) <= Tally(RoundRobins(trace), j) + 1
  {
    hide Legal, AllLegal, Cyclic, Tally, InArc;
    var picks := RoundRobins(trace);
    RoundRobinsCyclic(owed, socketMem, sz, trace);
    if picks == [] {
      NoTally(i);
    } else {
      var rounds := RoundsEven(socketMem, picks);
    }
  }

  lemma NoTally(x: nat)
    ensures Tally([], x) == 0
  {
  }
}
