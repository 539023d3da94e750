/** Address layout of DAX devices (testing/kvstore/experiment.cpp): rounding up to a power of two with the
    lowest-set-bit loop, and the address windows that the strides give to the devices. */
module DaxLayout {
  import opened Bits

  // ---------- round_up_to_pow2 ----------

  /** The power of two that is at least `n` and no larger than needed. */
  ghost predicate LeastPow2(n: nat, p: nat) {
    IsPow2(p) && n <= p && NoneSkipped(n, p)
  }

  /** `p` is `n` rounded up to a power of two in 64 bits: 0 where there is none. */
  ghost predicate RoundsUp(n: nat, p: nat) {
    if 1 <= n <= 0x8000_0000_0000_0000 then LeastPow2(n, p) else p == 0
  }

  lemma StepWithinWord(n: nat)
    requires 0 < n < WORD && LowBit(n) != n
    ensures n + LowBit(n) <= WORD
    ensures n > 0x8000_0000_0000_0000 ==> n + LowBit(n) > 0x8000_0000_0000_0000
    ensures n <= 0x8000_0000_0000_0000 ==> n + LowBit(n) <= 0x8000_0000_0000_0000
  {
    Pow2Word();
    NoPow2Between(n, 64);
    if n <= 0x8000_0000_0000_0000 {
      NoPow2Between(n, 63);
    }
  }

  lemma LeastPow2Step(n0: nat, n: nat)
    requires n > 0 && LowBit(n) != n && NoneSkipped(n0, n)
    ensures NoneSkipped(n0, n + LowBit(n))
  {
    forall k: nat | n0 <= Pow2(k)
      ensures n + LowBit(n) <= Pow2(k)
    {
      NoPow2Between(n, k);
    }
  }

  /** `p` is on the way from `n` to its power of two: no power of two was skipped, and `p` has wrapped to 0 only
      if there is none in a word. */
  ghost predicate Rounding(n: nat, p: nat) {
    && p < WORD
    && (p == 0 ==> n == 0 || n > 0x8000_0000_0000_0000)
    && (p > 0 ==> 0 < n <= p && (p > 0x8000_0000_0000_0000 <==> n > 0x8000_0000_0000_0000))
    && (p > 0 ==> NoneSkipped(n, p))
  }

  /** No power of two lies from `n` up to `p`. */
  ghost predicate NoneSkipped(n: nat, p: nat) {
    forall k: nat :: n <= Pow2(k) ==> p <= Pow2(k)
  }

  /** What the lowest set bit has left to grow. */
  function Room(p: nat): int {
    if p == 0 then 0 else WORD - LowBit(p)
  }

  /** The guard and the increment of the loop, in words: the lowest set bit is not all of `p`, and is added. */
  lemma LowBitInWord(p: nat)
    requires p < WORD
    ensures And(p, (p + WORD - 1) % WORD) != 0 <==> p > 0 && LowBit(p) != p
    ensures p > 0 ==> And(p, (WORD - p) % WORD) == LowBit(p)
  {
    hide And, LowBit, Pow2;
    if p == 0 {
      AndZero(WORD - 1);
    } else {
      Pow2Word();
      AndPred(p);
      AndNeg(p, 64);
      assert (p + WORD - 1) % WORD == p - 1 && (WORD - p) % WORD == WORD - p;
    }
  }

  lemma RoundingStep(n: nat, p: nat)
    requires Rounding(n, p) && p > 0 && LowBit(p) != p
    ensures Rounding(n, (p + LowBit(p)) % WORD) && 0 <= Room((p + LowBit(p)) % WORD) < Room(p)
  {
    hide LowBit, NoneSkipped;
    var q := p + LowBit(p);
    StepWithinWord(p);
    LowBitGrows(p);
    LeastPow2Step(n, p);
    WrapAtWord(q);
  }

  lemma WrapAtWord(q: nat)
    requires q <= WORD
    ensures q % WORD == if q == WORD then 0 else q
  {
  }

  lemma RoundingDone(n: nat, p: nat)
    requires Rounding(n, p) && (p == 0 || LowBit(p) == p)
    ensures RoundsUp(n, p)
  {
    hide LowBit, NoneSkipped, IsPow2;
    if p > 0 {
      LowBitIsPow2(p);
      NoWordAbove(p);
    }
  }

  /** `round_up_to_pow2` on 64-bit words: the least power of two at least `n`, and 0 where no word is. */
  method RoundUpToPow2(n: nat) returns (p: nat)
    requires n < WORD
    ensures RoundsUp(n, p)
  {
    hide And, Pow2, LowBit, Rounding, RoundsUp;
    p := n;
    RoundingStart(n);
    LowBitInWord(p);
    while And(p, (p + WORD - 1) % WORD) != 0
      invariant p < WORD && Rounding(n, p)
      invariant And(p, (p + WORD - 1) % WORD) != 0 <==> p > 0 && LowBit(p) != p
      decreases Room(p)
    {
      LowBitInWord(p);
      RoundingStep(n, p);
      p := (p + And(p, (WORD - p) % WORD)) % WORD;
      LowBitInWord(p);
    }
    RoundingDone(n, p);
  }

  lemma RoundingStart(n: nat)
    requires n < WORD
    ensures Rounding(n, n)
  {
  }

  lemma AndZero(b: nat)
    ensures And(0, b) == 0
  {
  }

  lemma NoWordAbove(p: nat)
    requires IsPow2(p) && p < WORD
    ensures p <= 0x8000_0000_0000_0000
  {
    hide Pow2;
    var k: nat :| Pow2(k) == p;
    Pow2Word();
    Pow2Order(64, k);
    Pow2Order(k, 63);
  }

  // ---------- Devices ----------

  /** A `dotted_pair`: the node and the index of a DAX device. */
  datatype Device = Device(node: nat, index: nat)

  /** One entry of `_core_to_device_map`, with the size its device reports. */
  datatype Entry = Entry(core: nat, device: Device, size: nat)

  predicate WellFormed(entries: seq<Entry>) {
    forall i :: 0 <= i < |entries| ==>
      entries[i].device.node < UNSIGNED && entries[i].device.index < UNSIGNED && entries[i].size < WORD
  }

  function Max(a: nat, b: nat): nat {
    if a < b then b else a
  }

  /** No device is larger, and some device has this size. */
  ghost predicate IsMaxSize(entries: seq<Entry>, size: nat) {
    && (forall i :: 0 <= i < |entries| ==> entries[i].size <= size)
    && (size == 0 || exists i :: 0 <= i < |entries| && entries[i].size == size)
  }

  /** `dev_dax_max_size`. */
  method DevDaxMaxSize(entries: seq<Entry>) returns (size: nat)
    ensures IsMaxSize(entries, size)
  {
    size := 0;
    for i := 0 to |entries|
      invariant forall j :: 0 <= j < i ==> entries[j].size <= size
      invariant size == 0 || exists j :: 0 <= j < i && entries[j].size == size
    {
      size := Max(size, entries[i].size);
    }
  }

  function Slots(d: Device): nat {
    (d.index + 1) % UNSIGNED
  }

  /** Some entry below `n` has this many slots. */
  ghost predicate Attained(entries: seq<Entry>, n: nat, slots: nat)
    requires n <= |entries|
  {
    exists j :: 0 <= j < n && Slots(entries[j].device) == slots
  }

  ghost predicate IsMaxSlots(entries: seq<Entry>, slots: nat) {
    && (forall i :: 0 <= i < |entries| ==> Slots(entries[i].device) <= slots)
    && (slots == 0 || Attained(entries, |entries|, slots))
  }

  lemma AttainedMore(entries: seq<Entry>, n: nat)
    requires n < |entries|
    ensures Attained(entries, n + 1, Slots(entries[n].device))
    ensures forall v :: Attained(entries, n, v) ==> Attained(entries, n + 1, v)
  {
  }

  /** `dev_dax_max_count_per_node`. The counts are kept per core, not per node; the maximum is the same. */
  method DevDaxMaxCountPerNode(entries: seq<Entry>) returns (size: nat)
    ensures IsMaxSlots(entries, size)
  {
    hide Slots, Attained;
    var devCount: map<nat, nat> := map[];
    for i := 0 to |entries|
      invariant forall j :: 0 <= j < i ==>
                entries[j].core in devCount && Slots(entries[j].device) <= devCount[entries[j].core]
      invariant forall c :: c in devCount && devCount[c] > 0 ==> Attained(entries, i, devCount[c])
    {
      var e := entries[i];
      AttainedMore(entries, i);
      var c := if e.core in devCount then devCount[e.core] else 0;
      devCount := devCount[e.core := Max(c, Slots(e.device))];
    }
    size := MaxValue(devCount);
  }

  /** The greatest value of the map, and 0 for the empty one. */
  method MaxValue(counts: map<nat, nat>) returns (size: nat)
    ensures forall c :: c in counts ==> counts[c] <= size
    ensures size == 0 || exists c :: c in counts && counts[c] == size
  {
    size := 0;
    var todo := counts.Keys;
    while todo != {}
      invariant todo <= counts.Keys
      invariant forall c :: c in counts && c !in todo ==> counts[c] <= size
      invariant size == 0 || exists c :: c in counts && counts[c] == size
      decreases |todo|
    {
      var c :| c in todo;
      size := Max(size, counts[c]);
      todo := todo - {c};
    }
  }

  const DAX_BASE := 0x70_0000_0000

  /** The address that `initialize_store` passes for the device, on the circle of 64-bit addresses. */
  function Address(nodeStride: nat, stride: nat, d: Device): nat {
    (DAX_BASE + nodeStride * d.node + stride * d.index) % WORD
  }

  /** The first device starts at the base, and no address that does not overflow is below it. */
  lemma AddressesFromBase(nodeStride: nat, stride: nat, d: Device)
    ensures Address(nodeStride, stride, Device(0, 0)) == 481036337152
    ensures nodeStride * d.node + stride * d.index < 18446743592673214464 ==>
              Address(nodeStride, stride, d) == 481036337152 + nodeStride * d.node + stride * d.index
  {
    if nodeStride * d.node + stride * d.index < 18446743592673214464 {
      SmallMod(481036337152 + nodeStride * d.node + stride * d.index, WORD);
    }
  }

  /** Two windows have an address in common. */
  ghost predicate Meet(a: nat, lenA: nat, b: nat, lenB: nat) {
    exists x: nat, y: nat :: x < lenA && y < lenB && SamePoint(a, x, b, y)
  }

  predicate SamePoint(a: nat, x: nat, b: nat, y: nat) {
    (a + x) % WORD == (b + y) % WORD
  }

  /** The position of a device among slots of one stride, `count` slots to a node. */
  function Slot(count: nat, d: Device): nat {
    count * d.node + d.index
  }

  // ---------- Congruence ----------

  ghost predicate Congruent(a: int, b: int, m: nat) {
    exists t: int :: a - b == m * t
  }

  lemma CongruentMod(a: nat, b: nat, m: nat)
    requires m > 0
    ensures a % m == b % m <==> Congruent(a, b, m)
  {
    var qa, qb := a / m, b / m;
    assert a == m * qa + a % m && b == m * qb + b % m;
    if a % m == b % m {
      assert a - b == m * (qa - qb);
    }
    if Congruent(a, b, m) {
      var t :| a - b == m * t;
      var d := t - qa + qb;
      assert m * d == a % m - b % m;
      MulSign(m, d);
    }
  }

  /** A device starts `Slot` strides past the base. */
  lemma AddressOfSlot(count: nat, stride: nat, nodeStride: nat, d: Device)
    requires nodeStride == (count * stride) % WORD
    ensures Congruent(Address(nodeStride, stride, d), DAX_BASE + stride * Slot(count, d), WORD)
  {
    var q := (count * stride) / WORD;
    var exact := DAX_BASE + nodeStride * d.node + stride * d.index;
    assert nodeStride == count * stride - WORD * q;
    assert nodeStride * d.node == count * stride * d.node - WORD * (q * d.node);
    assert stride * Slot(count, d) == count * stride * d.node + stride * d.index;
    assert Address(nodeStride, stride, d) - (DAX_BASE + stride * Slot(count, d))
        == WORD * (-(exact / WORD) - q * d.node);
  }

  lemma SlotsCongruent(stride: nat, m: nat, p: nat, q: nat, x: nat, y: nat)
    requires stride * m == WORD && x < stride && y < stride
    ensures Congruent(stride * p + x, stride * q + y, WORD) <==> x == y && Congruent(p, q, m)
  {
    if Congruent(stride * p + x, stride * q + y, WORD) {
      var t :| stride * p + x - (stride * q + y) == WORD * t;
      var d := m * t - p + q;
      assert stride * d == x - y by {
        assert stride * d == stride * m * t - stride * p + stride * q;
      }
      MulSign(stride, d);
      assert p - q == m * t;
    }
    if x == y && Congruent(p, q, m) {
      var t :| p - q == m * t;
      assert stride * (p - q) == WORD * t;
    }
  }

  /** Two windows of at most one stride have a common address exactly when the slots of their devices agree
      modulo the number of slots in the address space. */
  lemma WindowsMeet(count: nat, stride: nat, m: nat, nodeStride: nat, d: Device, lenD: nat, e: Device, lenE: nat)
    requires nodeStride == (count * stride) % WORD && stride * m == WORD
    requires 0 < lenD <= stride && 0 < lenE <= stride
    ensures Meet(Address(nodeStride, stride, d), lenD, Address(nodeStride, stride, e), lenE)
       <==> Congruent(Slot(count, d), Slot(count, e), m)
  {
    hide Congruent, Slot, Address, SamePoint;
    var a, b := Address(nodeStride, stride, d), Address(nodeStride, stride, e);
    forall x: nat, y: nat | x < lenD && y < lenE
      ensures SamePoint(a, x, b, y) <==> x == y && Congruent(Slot(count, d), Slot(count, e), m)
    {
      WindowPoint(count, stride, m, nodeStride, d, x, e, y);
    }
    if Congruent(Slot(count, d), Slot(count, e), m) {
      assert SamePoint(a, 0, b, 0);
    }
  }

  lemma WindowPoint(count: nat, stride: nat, m: nat, nodeStride: nat, d: Device, x: nat, e: Device, y: nat)
    requires nodeStride == (count * stride) % WORD && stride * m == WORD && x < stride && y < stride
    ensures SamePoint(Address(nodeStride, stride, d), x, Address(nodeStride, stride, e), y)
       <==> x == y && Congruent(Slot(count, d), Slot(count, e), m)
  {
    hide Address, Slot;
    var a, b := Address(nodeStride, stride, d), Address(nodeStride, stride, e);
    var p, q := Slot(count, d), Slot(count, e);
    AddressOfSlot(count, stride, nodeStride, d);
    AddressOfSlot(count, stride, nodeStride, e);
    CongruentMod(a + x, b + y, WORD);
    Shifted(a, DAX_BASE + stride * p, b, DAX_BASE + stride * q, x, y);
    assert Congruent(DAX_BASE + stride * p + x, DAX_BASE + stride * q + y, WORD) <==>
           Congruent(stride * p + x, stride * q + y, WORD);
    SlotsCongruent(stride, m, p, q, x, y);
  }

  lemma Shifted(a: int, a': int, b: int, b': int, x: int, y: int)
    requires Congruent(a, a', WORD) && Congruent(b, b', WORD)
    ensures Congruent(a + x, b + y, WORD) <==> Congruent(a' + x, b' + y, WORD)
  {
    var t :| a - a' == WORD * t;
    var u :| b - b' == WORD * u;
    if Congruent(a + x, b + y, WORD) {
      var v :| a + x - (b + y) == WORD * v;
      assert a' + x - (b' + y) == WORD * (v - t + u);
    }
    if Congruent(a' + x, b' + y, WORD) {
      var v :| a' + x - (b' + y) == WORD * v;
      assert a + x - (b + y) == WORD * (v + t - u);
    }
  }

  lemma SlotInjective(count: nat, d: Device, e: Device)
    requires d.index < count && e.index < count && Slot(count, d) == Slot(count, e)
    ensures d == e
  {
    assert count * (d.node - e.node) == e.index - d.index;
    MulSign(count, d.node - e.node);
  }

  /** Distinct devices that lie within the address space get windows without a common address. */
  lemma DistinctDevicesApart(count: nat, stride: nat, m: nat, nodeStride: nat, d: Device, lenD: nat, e: Device,
                             lenE: nat)
    requires nodeStride == (count * stride) % WORD && stride * m == WORD && lenD <= stride && lenE <= stride
    requires d != e && d.index < count && e.index < count && Slot(count, d) < m && Slot(count, e) < m
    ensures !Meet(Address(nodeStride, stride, d), lenD, Address(nodeStride, stride, e), lenE)
  {
    hide Address, Slot, Congruent;
    if lenD > 0 && lenE > 0 {
      WindowsMeet(count, stride, m, nodeStride, d, lenD, e, lenE);
      CongruentMod(Slot(count, d), Slot(count, e), m);
      SmallMod(Slot(count, d), m);
      SmallMod(Slot(count, e), m);
      if Slot(count, d) == Slot(count, e) {
        SlotInjective(count, d, e);
      }
    }
  }

  // ---------- The strides ----------

  lemma Pow2Divides(stride: nat)
    requires IsPow2(stride) && stride <= 0x8000_0000_0000_0000
    ensures stride > 0 && stride * (WORD / stride) == WORD
  {
    hide Pow2;
    var k: nat :| Pow2(k) == stride;
    Pow2Word();
    Pow2Order(k, 63);
    Pow2Order(64, k);
    Pow2Add(k, 64 - k);
    DivExact(stride, Pow2(64 - k));
  }

  lemma DivExact(a: nat, b: nat)
    requires a > 0
    ensures (a * b) / a == b
  {
    var d := (a * b) / a - b;
    assert a * d == -((a * b) % a);
    MulSign(a, d);
  }

  /** Strides of the largest device size, and node strides of the largest device count, rounded up. */
  ghost predicate LaidOut(entries: seq<Entry>, count: nat, stride: nat) {
    exists size, slots ::
      IsMaxSize(entries, size) && IsMaxSlots(entries, slots) && RoundsUp(size, stride) && RoundsUp(slots, count)
  }

  lemma StrideCovers(entries: seq<Entry>, size: nat, stride: nat)
    requires IsMaxSize(entries, size) && RoundsUp(size, stride)
    ensures stride == 0 || (IsPow2(stride) && stride <= 0x8000_0000_0000_0000)
    ensures (forall i :: 0 <= i < |entries| ==> entries[i].size <= 0x8000_0000_0000_0000) ==>
              forall i :: 0 <= i < |entries| ==> entries[i].size <= stride
  {
    hide Pow2, IsPow2;
    Pow2Word();
    if 0 < size <= 0x8000_0000_0000_0000 {
      assert size <= Pow2(63);
    }
  }

  lemma CountCovers(entries: seq<Entry>, slots: nat, count: nat)
    requires IsMaxSlots(entries, slots) && RoundsUp(slots, count)
    ensures (forall i :: 0 <= i < |entries| ==> entries[i].device.index + 1 < UNSIGNED) ==>
              forall i :: 0 <= i < |entries| ==> entries[i].device.index < count
  {
    hide IsPow2;
    SlotsSmall(entries, slots);
  }

  lemma SizeSmall(entries: seq<Entry>, size: nat)
    requires WellFormed(entries) && IsMaxSize(entries, size)
    ensures size < WORD
  {
  }

  lemma SlotsSmall(entries: seq<Entry>, slots: nat)
    requires IsMaxSlots(entries, slots)
    ensures slots < UNSIGNED
  {
  }

  /** The strides of `initialize_store`. */
  method Strides(entries: seq<Entry>) returns (nodeStride: nat, stride: nat, ghost count: nat)
    requires WellFormed(entries)
    ensures nodeStride == (count * stride) % WORD && LaidOut(entries, count, stride)
    ensures stride == 0 || (IsPow2(stride) && stride <= 0x8000_0000_0000_0000)
    ensures (forall i :: 0 <= i < |entries| ==> entries[i].size <= 0x8000_0000_0000_0000) ==>
              forall i :: 0 <= i < |entries| ==> entries[i].size <= stride
    ensures (forall i :: 0 <= i < |entries| ==> entries[i].device.index + 1 < UNSIGNED) ==>
              forall i :: 0 <= i < |entries| ==> entries[i].device.index < count
  {
    hide IsMaxSize, IsMaxSlots, RoundsUp, IsPow2;
    var maxSize := DevDaxMaxSize(entries);
    SizeSmall(entries, maxSize);
    stride := RoundUpToPow2(maxSize);
    var maxCount := DevDaxMaxCountPerNode(entries);
    SlotsSmall(entries, maxCount);
    var c := RoundUpToPow2(maxCount);
    count := c;
    nodeStride := (c * stride) % WORD;
    StrideCovers(entries, maxSize, stride);
    CountCovers(entries, maxCount, count);
  }

  /** Every device is of a size and an index that rounding can cover, and its slot is in the address space. */
  predicate WithinSpace(entries: seq<Entry>, count: nat, stride: nat) {
    forall i :: 0 <= i < |entries| ==>
      && entries[i].size <= 0x8000_0000_0000_0000
      && entries[i].device.index + 1 < UNSIGNED
      && (stride > 0 ==> Slot(count, entries[i].device) < WORD / stride)
  }

  /** The addresses given to the devices of a map: distinct devices within the address space never share one. */
  method AssignAddresses(entries: seq<Entry>) returns (addrs: seq<nat>, ghost count: nat, ghost stride: nat)
    requires WellFormed(entries)
    ensures |addrs| == |entries| && LaidOut(entries, count, stride)
    ensures forall i :: 0 <= i < |entries| ==> addrs[i] == Address((count * stride) % WORD, stride, entries[i].device)
    ensures WithinSpace(entries, count, stride) ==>
              forall i, j :: 0 <= i < |entries| && 0 <= j < |entries| && entries[i].device != entries[j].device ==>
                !Meet(addrs[i], entries[i].size, addrs[j], entries[j].size)
  {
    hide Meet, Slot, Address, IsPow2, LaidOut;
    var nodeStride, st;
    nodeStride, st, count := Strides(entries);
    stride := st;
    addrs := [];
    for i := 0 to |entries|
      invariant |addrs| == i && forall k :: 0 <= k < i ==> addrs[k] == Address(nodeStride, st, entries[k].device)
    {
      addrs := addrs + [Address(nodeStride, st, entries[i].device)];
    }
    if WithinSpace(entries, count, stride) {
      forall i, j | 0 <= i < |entries| && 0 <= j < |entries| && entries[i].device != entries[j].device
        ensures !Meet(addrs[i], entries[i].size, addrs[j], entries[j].size)
      {
        if stride > 0 {
          Pow2Divides(stride);
          DistinctDevicesApart(count, stride, WORD / stride, nodeStride, entries[i].device, entries[i].size,
                               entries[j].device, entries[j].size);
        } else {
          EmptyApart(addrs[i], addrs[j]);
        }
      }
    }
  }

  lemma EmptyApart(a: nat, b: nat)
    ensures !Meet(a, 0, b, 0)
  {
  }

  // ---------- Beyond the address space ----------

  /** Two devices of 8 GB on nodes 2^31 apart. */
  function FarApart(): seq<Entry> {
    [Entry(0, Device(0, 0), 0x2_0000_0000), Entry(1, Device(0x8000_0000, 0), 0x2_0000_0000)]
  }

  lemma PowersRoundToThemselves(k: nat)
    requires k <= 63
    ensures RoundsUp(Pow2(k), Pow2(k))
  {
    hide Pow2;
    Pow2Word();
    Pow2Order(k, 63);
  }

  lemma FarApartLayout()
    ensures WellFormed(FarApart()) && LaidOut(FarApart(), 1, 0x2_0000_0000)
  {
    hide RoundsUp, Pow2;
    var entries := FarApart();
    Pow2Small();
    Pow2Add(8, 8);
    Pow2Add(16, 16);
    Pow2Add(32, 1);
    PowersRoundToThemselves(0);
    PowersRoundToThemselves(33);
    assert IsMaxSize(entries, 0x2_0000_0000) by {
      assert entries[0].size == 0x2_0000_0000;
    }
    assert IsMaxSlots(entries, 1) by {
      assert Slots(entries[0].device) == 1 && Slots(entries[1].device) == 1;
      assert Attained(entries, 2, 1);
    }
  }

  /** Past the end of the address space the law fails: with the strides that the code computes for them, these two
      distinct devices get windows that start at the same address. */
  lemma OverflowAliases(len: nat)
    requires 0 < len <= 0x2_0000_0000
    ensures WellFormed(FarApart()) && LaidOut(FarApart(), 1, 0x2_0000_0000)
    ensures var stride, d, e := 0x2_0000_0000, FarApart()[0], FarApart()[1];
            && d.device != e.device && d.size == e.size == stride
            && Meet(Address(stride, stride, d.device), len, Address(stride, stride, e.device), len)
  {
    FarApartLayout();
    var stride, d, e := 0x2_0000_0000, FarApart()[0], FarApart()[1];
    assert SamePoint(Address(stride, stride, d.device), 0, Address(stride, stride, e.device), 0);
  }
}
