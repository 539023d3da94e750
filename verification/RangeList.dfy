/** Lists of indices in text (testing/kvstore/get_vector_from_string.h, testing/kvstore/dotted_pair.h):
    plain numbers or dotted pairs, single, as inclusive ranges `a-b` or as lengths `a:n`, separated by
    commas. Numbers are 32-bit unsigned words with wrap-around. */
module RangeList {
  import opened Bits
  import opened Options

  /** A `dotted_pair`; a plain number is a pair in node 0. */
  datatype Pair = Pair(first: nat, second: nat)

  /** What the elements of a list are. */
  datatype Mode = Plain | Dotted

  predicate IsIndex(mode: Mode, p: Pair) {
    p.first < UNSIGNED && p.second < UNSIGNED && (mode == Plain ==> p.first == 0)
  }

  // ---------- Reading a number ----------

  predicate IsDigit(c: char) { '0' <= c <= '9' }

  predicate IsSpace(c: char) { c == ' ' || '\t' <= c <= '\r' }

  function SkipSpaces(s: string): string {
    if s != [] && IsSpace(s[0]) then SkipSpaces(s[1..]) else s
  }

  /** The length of the run of digits that `s` starts with. */
  function DigitRun(s: string): (n: nat)
    ensures n <= |s| && forall i :: 0 <= i < n ==> IsDigit(s[i])
    ensures n < |s| ==> !IsDigit(s[n])
  {
    if s != [] && IsDigit(s[0]) then 1 + DigitRun(s[1..]) else 0
  }

  function DigitValue(c: char): (d: nat)
    requires IsDigit(c)
    ensures d < 10
  {
    c as int - '0' as int
  }

  /** The number that a string of digits denotes. */
  function Value(ds: string): nat
    requires forall i :: 0 <= i < |ds| ==> IsDigit(ds[i])
  {
    if ds == [] then 0 else Value(ds[..|ds| - 1]) * 10 + DigitValue(ds[|ds| - 1])
  }

  datatype Number = Number(value: nat, rest: string)

  predicate Signed(s: string) {
    s != [] && (s[0] == '-' || s[0] == '+')
  }

  /** `i_ >> n` for an unsigned `n`: white space, an optional sign, digits. A negative number wraps; a number
      out of range or without digits fails. */
  function ReadUnsigned(s: string): (r: Option<Number>)
    ensures r.Some? ==> r.value.value < UNSIGNED && |r.value.rest| < |s|
  {
    var t := SkipSpaces(s);
    ShorterWithoutSpaces(s);
    var u := if Signed(t) then t[1..] else t;
    var n := DigitRun(u);
    if n == 0 || Value(u[..n]) >= UNSIGNED then None
    else Some(Number(if Signed(t) && t[0] == '-' then (UNSIGNED - Value(u[..n])) % UNSIGNED else Value(u[..n]), u[n..]))
  }

  lemma {:induction false} ShorterWithoutSpaces(s: string)
    ensures |SkipSpaces(s)| <= |s|
  {
    if s != [] && IsSpace(s[0]) {
      ShorterWithoutSpaces(s[1..]);
    }
  }

  // ---------- Reading an element, an interval, a list ----------

  datatype Item = Item(pair: Pair, rest: string)

  /** Reading one element: a number, and in dotted lists a second one after a dot. */
  function ReadItem(mode: Mode, s: string): (r: Option<Item>)
    ensures r.Some? ==> IsIndex(mode, r.value.pair) && |r.value.rest| < |s|
  {
    match ReadUnsigned(s)
    case None => None
    case Some(Number(n, t)) =>
      if mode == Dotted && t != [] && t[0] == '.' then
        match ReadUnsigned(t[1..])
        case None => None
        case Some(Number(m, u)) => Some(Item(Pair(n, m), u))
      else Some(Item(Pair(0, n), t))
  }

  function Plus(p: Pair, n: nat): Pair {
    p.(second := (p.second + n) % UNSIGNED)
  }

  /** A half-open interval: from `lo` up to, without, `hi`. */
  datatype Interval = Interval(lo: Pair, hi: Pair, rest: string)

  function ReadInterval(mode: Mode, s: string): (r: Option<Interval>)
    ensures r.Some? ==> IsIndex(mode, r.value.lo) && IsIndex(mode, r.value.hi) && |r.value.rest| < |s|
  {
    match ReadItem(mode, s)
    case None => None
    case Some(Item(lo, t)) =>
      if t != [] && t[0] == '-' then
        match ReadItem(mode, t[1..])
        case None => None
        case Some(Item(p, u)) => Some(Interval(lo, Plus(p, 1), u))
      else if t != [] && t[0] == ':' then
        match ReadUnsigned(t[1..])
        case None => None
        case Some(Number(n, u)) => Some(Interval(lo, Plus(lo, n), u))
      else Some(Interval(lo, Plus(lo, 1), t))
  }

  /** How many increments lead from `lo` to `hi`. */
  function Steps(lo: Pair, hi: Pair): nat {
    (hi.second - lo.second) % UNSIGNED
  }

  /** The `n` elements from `lo` on. */
  function Enumerate(lo: Pair, n: nat): (items: seq<Pair>)
    ensures |items| == n && forall k :: 0 <= k < n ==> items[k] == Plus(lo, k)
  {
    seq(n, k requires 0 <= k < n => Plus(lo, k))
  }

  /** The elements of an interval, counting up with wrap-around; pairs in different nodes cannot be compared. */
  function Expand(lo: Pair, hi: Pair): Option<seq<Pair>> {
    if lo.first != hi.first then None else Some(Enumerate(lo, Steps(lo, hi)))
  }

  /** The elements `cores` in front of a parsed list. */
  function After(cores: seq<Pair>, r: Option<seq<Pair>>): Option<seq<Pair>> {
    match r
    case None => None
    case Some(items) => Some(cores + items)
  }

  function Parse(mode: Mode, s: string): Option<seq<Pair>>
    decreases |s|
  {
    match ReadInterval(mode, s)
    case None => None
    case Some(Interval(lo, hi, t)) =>
      match Expand(lo, hi)
      case None => None
      case Some(items) =>
        if t == [] then Some(items)
        else if t[0] != ',' then None
        else After(items, Parse(mode, t[1..]))
  }

  // ---------- Printing ----------

  function Digit(d: nat): (c: char)
    requires d < 10
    ensures IsDigit(c) && DigitValue(c) == d
  {
    ('0' as int + d) as char
  }

  function PrintUnsigned(n: nat): (s: string)
    ensures |s| > 0 && forall i :: 0 <= i < |s| ==> IsDigit(s[i])
  {
    if n < 10 then [Digit(n)] else PrintUnsigned(n / 10) + [Digit(n % 10)]
  }

  function PrintItem(mode: Mode, p: Pair): string {
    match mode
    case Plain => PrintUnsigned(p.second)
    case Dotted => PrintUnsigned(p.first) + "." + PrintUnsigned(p.second)
  }

  function PrintList(mode: Mode, items: seq<Pair>): string
    requires items != []
  {
    if |items| == 1 then PrintItem(mode, items[0]) else PrintItem(mode, items[0]) + "," + PrintList(mode, items[1..])
  }

  // ---------- Round trip ----------

  lemma {:induction false} ValueOfPrinted(n: nat)
    ensures Value(PrintUnsigned(n)) == n
  {
    if n >= 10 {
      var s, c := PrintUnsigned(n / 10), Digit(n % 10);
      assert (s + [c])[..|s|] == s;
      ValueOfPrinted(n / 10);
    }
  }

  /** Text that does not start with a digit. */
  predicate Stops(t: string) {
    t == [] || !IsDigit(t[0])
  }

  lemma {:induction false} DigitRunAll(ds: string, t: string)
    requires Stops(t) && forall i :: 0 <= i < |ds| ==> IsDigit(ds[i])
    ensures DigitRun(ds + t) == |ds|
  {
    if ds == [] {
      assert ds + t == t;
    } else {
      assert (ds + t)[1..] == ds[1..] + t;
      DigitRunAll(ds[1..], t);
    }
  }

  lemma ReadPrinted(n: nat, t: string)
    requires n < UNSIGNED && Stops(t)
    ensures ReadUnsigned(PrintUnsigned(n) + t) == Some(Number(n, t))
  {
    var ds := PrintUnsigned(n);
    var s := ds + t;
    assert s[0] == ds[0] && SkipSpaces(s) == s && !Signed(s);
    DigitRunAll(ds, t);
    assert s[..|ds|] == ds && s[|ds|..] == t;
    ValueOfPrinted(n);
  }

  /** Text at which a dotted element is complete: neither a digit nor a dot follows. */
  predicate StopsItem(t: string) {
    Stops(t) && (t == [] || t[0] != '.')
  }

  lemma ReadPrintedItem(mode: Mode, p: Pair, t: string)
    requires IsIndex(mode, p) && StopsItem(t)
    ensures ReadItem(mode, PrintItem(mode, p) + t) == Some(Item(p, t))
  {
    hide ReadUnsigned, PrintUnsigned;
    if mode == Plain {
      ReadPrinted(p.second, t);
    } else {
      var u := PrintUnsigned(p.second) + t;
      var v := "." + u;
      assert PrintItem(mode, p) + t == PrintUnsigned(p.first) + v;
      ReadPrinted(p.first, v);
      assert v[1..] == u;
      ReadPrinted(p.second, t);
    }
  }

  lemma OneStep(p: Pair)
    requires p.second < UNSIGNED
    ensures Expand(p, Plus(p, 1)) == Some([p])
  {
    assert Steps(p, Plus(p, 1)) == 1;
    assert Plus(p, 0) == p;
    assert Enumerate(p, 1) == [p];
  }

  /** A printed list reads back as the list. */
  lemma {:induction false} RoundTrip(mode: Mode, items: seq<Pair>)
    requires items != [] && forall i :: 0 <= i < |items| ==> IsIndex(mode, items[i])
    ensures Parse(mode, PrintList(mode, items)) == Some(items)
    decreases |items|
  {
    hide ReadItem, PrintItem, Expand;
    var p := items[0];
    OneStep(p);
    if |items| == 1 {
      ReadPrintedItem(mode, p, "");
      assert PrintItem(mode, p) + "" == PrintList(mode, items);
      assert items == [p];
    } else {
      var more := PrintList(mode, items[1..]);
      var t := "," + more;
      assert PrintList(mode, items) == PrintItem(mode, p) + t;
      ReadPrintedItem(mode, p, t);
      assert t[1..] == more;
      RoundTrip(mode, items[1..]);
      assert [p] + items[1..] == items;
    }
  }

  // ---------- Other ways to write a number, and what is refused ----------

  /** In a dotted list, a number without a dot is in node 0. */
  lemma PlainInDotted(n: nat, t: string)
    requires n < UNSIGNED && StopsItem(t)
    ensures ReadItem(Dotted, PrintUnsigned(n) + t) == Some(Item(Pair(0, n), t))
  {
    hide ReadUnsigned, PrintUnsigned;
    ReadPrinted(n, t);
  }

  /** In a plain list, a dot is not part of an element. */
  lemma DotInPlain(n: nat, t: string)
    requires n < UNSIGNED
    ensures ReadItem(Plain, PrintUnsigned(n) + ("." + t)) == Some(Item(Pair(0, n), "." + t))
    ensures Parse(Plain, PrintUnsigned(n) + ("." + t)) == None
  {
    hide ReadUnsigned, PrintUnsigned, Expand;
    ReadPrinted(n, "." + t);
    OneStep(Pair(0, n));
  }

  /** White space in front of a number is skipped: blanks, tabs and the characters that end lines and pages. */
  lemma {:induction false} SpacesSkipped(spaces: string, s: string)
    requires forall i :: 0 <= i < |spaces| ==> spaces[i] in [' ', '\t', '\n', 11 as char, 12 as char, '\r']
    ensures ReadUnsigned(spaces + s) == ReadUnsigned(s)
  {
    SkipAll(spaces, s);
  }

  lemma {:induction false} SkipAll(spaces: string, s: string)
    requires forall i :: 0 <= i < |spaces| ==> spaces[i] in [' ', '\t', '\n', 11 as char, 12 as char, '\r']
    ensures SkipSpaces(spaces + s) == SkipSpaces(s)
    decreases |spaces|
  {
    if spaces == [] {
      assert spaces + s == s;
    } else {
      assert spaces[0] in [' ', '\t', '\n', 11 as char, 12 as char, '\r'];
      assert (spaces + s)[1..] == spaces[1..] + s;
      SkipAll(spaces[1..], s);
    }
  }

  lemma SignRead(sign: char, u: string, n: nat)
    requires (sign == '+' || sign == '-') && 0 < n == DigitRun(u) && Value(u[..n]) < UNSIGNED
    ensures ReadUnsigned([sign] + u)
         == Some(Number(if sign == '-' then (UNSIGNED - Value(u[..n])) % UNSIGNED else Value(u[..n]), u[n..]))
  {
    hide Value;
    var s := [sign] + u;
    assert s[1..] == u && SkipSpaces(s) == s;
  }

  /** A minus sign counts down from 2^32, and a plus sign changes nothing. */
  lemma SignsRead(n: nat, t: string)
    requires n < 4294967296 && Stops(t)
    ensures ReadUnsigned("+" + (PrintUnsigned(n) + t)) == Some(Number(n, t))
    ensures ReadUnsigned("-" + (PrintUnsigned(n) + t)) == Some(Number(if n == 0 then 0 else 4294967296 - n, t))
  {
    hide ReadUnsigned, PrintUnsigned, DigitRun, Value;
    var ds := PrintUnsigned(n);
    var u := ds + t;
    DigitRunAll(ds, t);
    assert u[..|ds|] == ds && u[|ds|..] == t;
    ValueOfPrinted(n);
    SignRead('+', u, |ds|);
    SignRead('-', u, |ds|);
    Negated(n);
  }

  lemma Negated(n: nat)
    requires n < 4294967296
    ensures (UNSIGNED - n) % UNSIGNED == if n == 0 then 0 else 4294967296 - n
  {
    if n > 0 {
      SmallMod(UNSIGNED - n, UNSIGNED);
    }
  }

  /** A number of 2^32 or more is refused, and so is text that does not start with a number. */
  lemma NumbersRefused(n: nat, t: string)
    ensures n >= 4294967296 && Stops(t) ==> ReadUnsigned(PrintUnsigned(n) + t) == None
    ensures t == [] ==> ReadUnsigned(t) == None
    ensures t != [] && t[0] !in "0123456789+- " && !('\t' <= t[0] <= '\r') ==> ReadUnsigned(t) == None
  {
    if n >= 4294967296 && Stops(t) {
      var ds := PrintUnsigned(n);
      var s := ds + t;
      assert s[0] == ds[0] && SkipSpaces(s) == s && !Signed(s);
      DigitRunAll(ds, t);
      assert s[..|ds|] == ds;
      ValueOfPrinted(n);
    }
    if t != [] && t[0] !in "0123456789+- " && !('\t' <= t[0] <= '\r') {
      assert "0123456789+- "[10] == '+' && "0123456789+- "[11] == '-' && "0123456789+- "[12] == ' ';
      assert SkipSpaces(t) == t && !Signed(t);
      if IsDigit(t[0]) {
        DigitListed(t[0]);
      }
      assert DigitRun(t) == 0;
    }
  }

  lemma DigitListed(c: char)
    requires IsDigit(c)
    ensures c in "0123456789+- "
  {
    assert c == "0123456789+- "[c as int - '0' as int];
  }

  /** After an element, only a comma goes on with the list; a dash, a colon or (in a dotted list) a dot are part of the
      element. Anything else is refused, and so is a list that ends in a comma. */
  lemma ListsRefused(mode: Mode, p: Pair, c: char, t: string)
    requires IsIndex(mode, p) && !IsDigit(c) && c !in ",-:."
    ensures Parse(mode, PrintItem(mode, p) + ([c] + t)) == None
    ensures Parse(mode, PrintItem(mode, p) + ",") == None
  {
    hide ReadItem, PrintItem, Expand;
    assert ",-:."[0] == ',' && ",-:."[1] == '-' && ",-:."[2] == ':' && ",-:."[3] == '.';
    OneStep(p);
    ReadPrintedItem(mode, p, [c] + t);
    ReadPrintedItem(mode, p, ",");
    assert ","[1..] == "";
    NothingRead(mode);
  }

  lemma NothingRead(mode: Mode)
    ensures ReadItem(mode, "") == None
  {
  }

  // ---------- Ranges ----------

  function PrintRange(mode: Mode, a: Pair, b: Pair): string {
    PrintItem(mode, a) + ("-" + PrintItem(mode, b))
  }

  function PrintLength(mode: Mode, a: Pair, n: nat): string {
    PrintItem(mode, a) + (":" + PrintUnsigned(n))
  }

  lemma PrintTwo(n: nat)
    requires 10 <= n < 100
    ensures PrintUnsigned(n) == [Digit(n / 10), Digit(n % 10)]
  {
  }

  /** What the forms look like: an element, a list, a range and a length. */
  lemma PrintedForms()
    ensures PrintItem(Plain, Pair(0, 42)) == "42" && PrintItem(Dotted, Pair(7, 42)) == "7.42"
    ensures PrintList(Plain, [Pair(0, 3), Pair(0, 42)]) == "3,42"
    ensures PrintRange(Plain, Pair(0, 3), Pair(0, 42)) == "3-42"
    ensures PrintLength(Plain, Pair(0, 3), 42) == "3:42"
  {
    PrintTwo(42);
    assert Digit(4) == '4' && Digit(2) == '2' && Digit(3) == '3' && Digit(7) == '7';
    assert [Pair(0, 3), Pair(0, 42)][1..] == [Pair(0, 42)];
  }

  /** An inclusive range counts up from `a` to `b`, around zero if `b` is smaller; pairs of two nodes are
      refused. */
  lemma ParseRange(mode: Mode, a: Pair, b: Pair)
    requires IsIndex(mode, a) && IsIndex(mode, b)
    ensures Parse(mode, PrintRange(mode, a, b))
         == if a.first == b.first then Some(Enumerate(a, (b.second + 1 - a.second) % UNSIGNED)) else None
  {
    hide ReadItem, PrintItem, Enumerate, SkipSpaces, DigitRun;
    var t := "-" + PrintItem(mode, b);
    ReadPrintedItem(mode, a, t);
    assert t[1..] == PrintItem(mode, b) + "";
    ReadPrintedItem(mode, b, "");
    WrapDifference(a.second, b.second);
  }

  lemma WrapDifference(x: nat, y: nat)
    ensures ((y + 1) % UNSIGNED - x) % UNSIGNED == (y + 1 - x) % UNSIGNED
  {
    var q := (y + 1) / UNSIGNED;
    assert (y + 1) % UNSIGNED - x == y + 1 - x - q * UNSIGNED;
  }

  lemma ParseLength(mode: Mode, a: Pair, n: nat)
    requires IsIndex(mode, a) && n < UNSIGNED
    ensures Parse(mode, PrintLength(mode, a, n)) == Some(Enumerate(a, n))
  {
    hide ReadItem, PrintItem, PrintUnsigned, ReadUnsigned;
    var t := ":" + PrintUnsigned(n);
    ReadPrintedItem(mode, a, t);
    assert t[1..] == PrintUnsigned(n) + "";
    ReadPrinted(n, "");
    assert Steps(a, Plus(a, n)) == n;
  }

  /** The three ways to write the indices from `a` to `b` of one node agree, unless they are all 2^32 indices
      of the node: then the range `0-4294967295` comes out empty. */
  lemma RangesAgree(mode: Mode, a: Pair, b: Pair)
    requires IsIndex(mode, a) && IsIndex(mode, b) && a.first == b.first && a.second <= b.second
    ensures var items := Enumerate(a, b.second - a.second + 1);
            && (Parse(mode, PrintRange(mode, a, b)) == Some(items) <==> (a.second > 0 || b.second < UNSIGNED - 1))
            && (a.second > 0 || b.second < UNSIGNED - 1 ==> Parse(mode, PrintLength(mode, a, |items|)) == Some(items))
            && Parse(mode, PrintList(mode, items)) == Some(items)
  {
    hide Parse, PrintRange, PrintLength, PrintList;
    var n := b.second - a.second + 1;
    ParseRange(mode, a, b);
    if n < UNSIGNED {
      ParseLength(mode, a, n);
    }
    RoundTrip(mode, Enumerate(a, n));
    if a.second == 0 && b.second == UNSIGNED - 1 {
      assert |Enumerate(a, (b.second + 1 - a.second) % UNSIGNED)| == 0;
    }
  }

  // ---------- The reader as code ----------

  /** A `std::istringstream`: the text still to be read. */
  class Stream {
    var rest: string

    constructor (text: string)
      ensures rest == text
    {
      rest := text;
    }

    method Get() returns (c: Option<char>)
      modifies this
      ensures c == if old(rest) == [] then None else Some(old(rest)[0])
      ensures rest == if old(rest) == [] then [] else old(rest)[1..]
    {
      if rest == [] {
        return None;
      }
      c, rest := Some(rest[0]), rest[1..];
    }

    /** Extraction of an unsigned number, by the standard library. */
    method GetUnsigned() returns (r: Option<nat>)
      modifies this
      ensures match ReadUnsigned(old(rest))
              case None => r == None
              case Some(Number(n, t)) => r == Some(n) && rest == t
    {
      match ReadUnsigned(rest)
      case None => r := None;
      case Some(Number(n, t)) => r, rest := Some(n), t;
    }

    /** Extraction of an element. */
    method GetItem(mode: Mode) returns (r: Option<Pair>)
      modifies this
      ensures match ReadItem(mode, old(rest))
              case None => r == None
              case Some(Item(p, t)) => r == Some(p) && rest == t
    {
      hide ReadUnsigned;
      var first := GetUnsigned();
      if first == None {
        return None;
      }
      if mode == Dotted && rest != [] && rest[0] == '.' {
        var _ := Get();
        var second := GetUnsigned();
        r := if second == None then None else Some(Pair(first.value, second.value));
      } else {
        r := Some(Pair(0, first.value));
      }
    }

    /** Extraction of a half-open interval: an element, a range or a length. */
    method GetInterval(mode: Mode) returns (r: Option<(Pair, Pair)>)
      modifies this
      ensures match ReadInterval(mode, old(rest))
              case None => r == None
              case Some(Interval(lo, hi, t)) => r == Some((lo, hi)) && rest == t
    {
      hide ReadUnsigned, ReadItem;
      var lo := GetItem(mode);
      if lo == None {
        return None;
      }
      if rest != [] && rest[0] == '-' {
        var _ := Get();
        var hi := GetItem(mode);
        r := if hi == None then None else Some((lo.value, Plus(hi.value, 1)));
      } else if rest != [] && rest[0] == ':' {
        var _ := Get();
        var length := GetUnsigned();
        r := if length == None then None else Some((lo.value, Plus(lo.value, length.value)));
      } else {
        r := Some((lo.value, Plus(lo.value, 1)));
      }
    }
  }

  lemma StepForward(lo: Pair, hi: Pair)
    requires lo.first == hi.first && lo.second < UNSIGNED && hi.second < UNSIGNED && lo != hi
    ensures Steps(lo, hi) > 0 && Steps(Plus(lo, 1), hi) == Steps(lo, hi) - 1
    ensures Enumerate(lo, Steps(lo, hi)) == [lo] + Enumerate(Plus(lo, 1), Steps(lo, hi) - 1)
  {
    hide Enumerate, Plus;
    var n := Steps(lo, hi);
    assert n == if hi.second >= lo.second then hi.second - lo.second else hi.second - lo.second + UNSIGNED;
    NextStep(lo);
    var a, b := Enumerate(lo, n), Enumerate(Plus(lo, 1), n - 1);
    forall k | 0 <= k < n
      ensures a[k] == ([lo] + b)[k]
    {
      PlusNext(lo, k);
    }
  }

  lemma NextStep(p: Pair)
    requires p.second < UNSIGNED
    ensures Plus(p, 1) == p.(second := if p.second == UNSIGNED - 1 then 0 else p.second + 1)
  {
  }

  lemma PlusNext(p: Pair, k: nat)
    requires p.second < UNSIGNED
    ensures if k == 0 then Plus(p, k) == p else Plus(Plus(p, 1), k - 1) == Plus(p, k)
  {
  }

  /** The inner loop: counts from `lo` up to `hi`. */
  method Push(mode: Mode, cores: seq<Pair>, lo: Pair, hi: Pair) returns (r: Option<seq<Pair>>)
    requires IsIndex(mode, lo) && IsIndex(mode, hi)
    ensures r == match Expand(lo, hi) { case None => None case Some(items) => Some(cores + items) }
  {
    hide Enumerate, Steps;
    if lo.first != hi.first {
      return None;
    }
    var p, out := lo, cores;
    while p != hi
      invariant IsIndex(mode, p) && p.first == hi.first
      invariant out + Enumerate(p, Steps(p, hi)) == cores + Enumerate(lo, Steps(lo, hi))
      decreases Steps(p, hi)
    {
      StepForward(p, hi);
      ghost var more := Enumerate(Plus(p, 1), Steps(p, hi) - 1);
      assert out + ([p] + more) == (out + [p]) + more;
      out := out + [p];
      p := Plus(p, 1);
    }
    assert Enumerate(p, Steps(p, hi)) == [] by {
      assert |Enumerate(p, 0)| == 0;
      NoSteps(p);
    }
    assert out + [] == out;
    return Some(out);
  }

  lemma NoSteps(p: Pair)
    ensures Steps(p, p) == 0
  {
  }

  /** What the list reads as once `cores` are collected, `c` is the separator just read and `rest` follows. */
  function Pending(mode: Mode, cores: seq<Pair>, c: Option<char>, rest: string): Option<seq<Pair>> {
    if c == Some(',') then After(cores, Parse(mode, rest)) else if c == None then Some(cores) else None
  }

  lemma AfterInterval(mode: Mode, cores: seq<Pair>, s: string)
    ensures match ReadInterval(mode, s)
            case None => Parse(mode, s) == None
            case Some(Interval(lo, hi, t)) =>
              match Expand(lo, hi)
              case None => Parse(mode, s) == None
              case Some(items) =>
                After(cores, Parse(mode, s)) == if t == [] then Pending(mode, cores + items, None, [])
                                                else Pending(mode, cores + items, Some(t[0]), t[1..])
  {
    hide ReadInterval, Expand;
    match ReadInterval(mode, s)
    case None =>
    case Some(Interval(lo, hi, t)) =>
      match Expand(lo, hi)
      case None =>
      case Some(items) =>
        if t != [] && t[0] == ',' && Parse(mode, t[1..]).Some? {
          var more := Parse(mode, t[1..]).value;
          assert cores + (items + more) == cores + items + more;
        }
  }

  /** The whole list: intervals as long as a comma follows, then the end of the text. */
  method GetVectorFromString(mode: Mode, text: string) returns (r: Option<seq<Pair>>)
    ensures r == Parse(mode, text)
  {
    hide ReadInterval, Expand, Parse;
    var stream := new Stream(text);
    var cores, c := [], Some(',');
    assert Parse(mode, text).Some? ==> cores + Parse(mode, text).value == Parse(mode, text).value;
    while c == Some(',')
      invariant fresh(stream)
      invariant Parse(mode, text) == Pending(mode, cores, c, stream.rest)
      decreases if c == Some(',') then |stream.rest| + 1 else 0
    {
      AfterInterval(mode, cores, stream.rest);
      var interval := stream.GetInterval(mode);
      if interval == None {
        return None;
      }
      var pushed := Push(mode, cores, interval.value.0, interval.value.1);
      if pushed == None {
        return None;
      }
      cores := pushed.value;
      c := stream.Get();
    }
    r := if c == None then Some(cores) else None;
  }
}
