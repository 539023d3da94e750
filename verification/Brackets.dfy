/** The bracket matchers of the linter (apps/caffe/scripts/cpp_lint.py): from an opening bracket forward to its
    close, and from a closing bracket back to its opening, over any number of lines. */
module Brackets {

  predicate IsOpening(c: char) { c == '(' || c == '{' || c == '[' || c == '<' }

  predicate IsClosing(c: char) { c == ')' || c == '}' || c == ']' || c == '>' }

  function CloserOf(c: char): (d: char)
    requires IsOpening(c)
    ensures IsClosing(d) && OpenerOf(d) == c
  {
    if c == '(' then ')' else if c == '[' then ']' else if c == '{' then '}' else '>'
  }

  function OpenerOf(c: char): (d: char)
    requires IsClosing(c)
    ensures IsOpening(d)
  {
    if c == ')' then '(' else if c == ']' then '[' else if c == '}' then '{' else '<'
  }

  // ---------- What matching means ----------

  function Weight(a: char, b: char, c: char): int {
    if c == a then 1 else if c == b then -1 else 0
  }

  /** Openings less closings in `s`. */
  function Depth(a: char, b: char, s: string): int {
    if s == [] then 0 else Depth(a, b, s[..|s| - 1]) + Weight(a, b, s[|s| - 1])
  }

  /** Openings less closings from index `i` up to index `j`. */
  function Between(a: char, b: char, text: string, i: nat, j: nat): int
    requires i <= j <= |text|
  {
    Depth(a, b, text[i..j])
  }

  /** The bracket `a` at `i` of the text is closed by the `b` just before `end`. */
  ghost predicate Matches(a: char, b: char, text: string, i: nat, end: nat) {
    && i + 1 < end <= |text|
    && Between(a, b, text, i, end) == 0
    && forall k :: i < k < end ==> Between(a, b, text, i, k) > 0
  }

  ghost predicate Unclosed(a: char, b: char, text: string, i: nat) {
    forall end :: !Matches(a, b, text, i, end)
  }

  ghost predicate Unopened(a: char, b: char, text: string, end: nat) {
    forall i :: !Matches(a, b, text, i, end)
  }

  lemma {:induction false} DepthConcat(a: char, b: char, s: string, t: string)
    ensures Depth(a, b, s + t) == Depth(a, b, s) + Depth(a, b, t)
  {
    if t == [] {
      assert s + t == s;
    } else {
      var u := t[..|t| - 1];
      assert (s + t)[..|s + t| - 1] == s + u;
      DepthConcat(a, b, s, u);
    }
  }

  lemma DepthSplit(a: char, b: char, text: string, i: nat, k: nat, j: nat)
    requires i <= k <= j <= |text|
    ensures Between(a, b, text, i, j) == Between(a, b, text, i, k) + Between(a, b, text, k, j)
  {
    assert text[i..j] == text[i..k] + text[k..j];
    DepthConcat(a, b, text[i..k], text[k..j]);
  }

  // ---------- One scan of a whole text ----------

  /** A scan ends at an index, or at the end of the text with so many brackets open. */
  datatype Scan = Found(index: nat) | Open(depth: int)

  function Shift(n: nat, r: Scan): Scan {
    match r
    case Found(k) => Found(n + k)
    case Open(d) => r
  }

  /** Forward through `s` from its beginning with `depth` brackets open. */
  function Forward(a: char, b: char, s: string, depth: int): Scan {
    if s == [] then Open(depth)
    else
      var d := depth + Weight(a, b, s[0]);
      if s[0] != a && s[0] == b && d == 0 then Found(0) else Shift(1, Forward(a, b, s[1..], d))
  }

  /** Backward through `s` from its end. */
  function Backward(a: char, b: char, s: string, depth: int): Scan {
    if s == [] then Open(depth)
    else
      var n := |s| - 1;
      var d := depth - Weight(a, b, s[n]);
      if s[n] != b && s[n] == a && d == 0 then Found(n) else Backward(a, b, s[..n], d)
  }

  // ---------- The scans find the matching bracket ----------

  /** Reading `s` with `d` brackets open, some stay open. */
  ghost predicate StaysOpen(a: char, b: char, s: string, d: int) {
    forall m :: 0 <= m <= |s| ==> d + Depth(a, b, s[..m]) > 0
  }

  /** The same, reading `s` from its end. */
  ghost predicate StaysOpenBack(a: char, b: char, s: string, d: int) {
    forall m :: 0 <= m <= |s| ==> d - Depth(a, b, s[m..]) > 0
  }

  lemma DepthFirst(a: char, b: char, s: string)
    requires s != []
    ensures Depth(a, b, s) == Weight(a, b, s[0]) + Depth(a, b, s[1..])
  {
    DepthConcat(a, b, s[..1], s[1..]);
    assert s == s[..1] + s[1..];
    assert s[..1][..0] == [];
  }

  lemma DepthLast(a: char, b: char, s: string)
    requires s != []
    ensures Depth(a, b, s) == Depth(a, b, s[..|s| - 1]) + Weight(a, b, s[|s| - 1])
  {
  }

  lemma StaysOpenFirst(a: char, b: char, s: string, d: int)
    requires s != [] && d > 0
    ensures StaysOpen(a, b, s, d) <==> StaysOpen(a, b, s[1..], d + Weight(a, b, s[0]))
  {
    forall m | 0 < m <= |s|
      ensures Depth(a, b, s[..m]) == Weight(a, b, s[0]) + Depth(a, b, s[1..][..m - 1])
    {
      DepthFirst(a, b, s[..m]);
      assert s[..m][1..] == s[1..][..m - 1];
    }
    if StaysOpen(a, b, s, d) {
      forall m | 0 <= m <= |s[1..]|
        ensures d + Weight(a, b, s[0]) + Depth(a, b, s[1..][..m]) > 0
      {
        assert d + Depth(a, b, s[..m + 1]) > 0;
      }
    }
  }

  lemma TailOfPrefix(s: string, n: nat)
    requires 0 < n <= |s|
    ensures s[..n][1..] == s[1..][..n - 1]
  {
  }

  lemma FrontOfSuffix(s: string, n: nat)
    requires n < |s|
    ensures s[n..][..|s| - 1 - n] == s[..|s| - 1][n..]
  {
  }

  /** A forward scan stops where the depth first falls to zero. */
  lemma {:induction false} ForwardStops(a: char, b: char, s: string, d: int)
    requires a != b && d > 0
    ensures match Forward(a, b, s, d)
            case Found(k) => k < |s| && StaysOpen(a, b, s[..k], d) && d + Depth(a, b, s[..k + 1]) == 0
            case Open(e) => StaysOpen(a, b, s, d) && e == d + Depth(a, b, s)
    decreases |s|
  {
    hide StaysOpen, Depth;
    StaysOpenNothing(a, b, d);
    if s != [] {
      var e := d + Weight(a, b, s[0]);
      if e == 0 {
        assert s[..0] == [] && s[..1][1..] == [];
        DepthFirst(a, b, s[..1]);
      } else {
        ForwardStops(a, b, s[1..], e);
        match Forward(a, b, s[1..], e)
        case Found(k) =>
          TailOfPrefix(s, k + 1);
          TailOfPrefix(s, k + 2);
          StaysOpenFirst(a, b, s[..k + 1], d);
          DepthFirst(a, b, s[..k + 2]);
        case Open(_) =>
          StaysOpenFirst(a, b, s, d);
          DepthFirst(a, b, s);
      }
    }
  }

  lemma StaysOpenNothing(a: char, b: char, d: int)
    requires d > 0
    ensures StaysOpen(a, b, [], d) && StaysOpenBack(a, b, [], d) && Depth(a, b, []) == 0
  {
  }

  lemma StaysOpenLast(a: char, b: char, s: string, d: int)
    requires s != [] && d > 0
    ensures StaysOpenBack(a, b, s, d) <==> StaysOpenBack(a, b, s[..|s| - 1], d - Weight(a, b, s[|s| - 1]))
  {
    var n := |s| - 1;
    forall m | 0 <= m <= n
      ensures Depth(a, b, s[m..]) == Depth(a, b, s[..n][m..]) + Weight(a, b, s[n])
    {
      assert s[m..][..n - m] == s[..n][m..];
    }
    if StaysOpenBack(a, b, s, d) {
      forall m | 0 <= m <= n
        ensures d - Weight(a, b, s[n]) - Depth(a, b, s[..n][m..]) > 0
      {
        assert d - Depth(a, b, s[m..]) > 0;
      }
    }
  }

  lemma {:induction false} BackwardStops(a: char, b: char, s: string, d: int)
    requires a != b && d > 0
    ensures match Backward(a, b, s, d)
            case Found(k) => k < |s| && StaysOpenBack(a, b, s[k + 1..], d) && d - Depth(a, b, s[k..]) == 0
            case Open(e) => StaysOpenBack(a, b, s, d) && e == d - Depth(a, b, s)
    decreases |s|
  {
    hide StaysOpenBack, Depth;
    StaysOpenNothing(a, b, d);
    if s != [] {
      var n := |s| - 1;
      var e := d - Weight(a, b, s[n]);
      if e == 0 {
        assert s[n + 1..] == [] && s[n..][..0] == [];
        DepthLast(a, b, s[n..]);
      } else {
        BackwardStops(a, b, s[..n], e);
        match Backward(a, b, s[..n], e)
        case Found(k) =>
          FrontOfSuffix(s, k + 1);
          FrontOfSuffix(s, k);
          StaysOpenLast(a, b, s[k + 1..], d);
          DepthLast(a, b, s[k..]);
        case Open(_) =>
          StaysOpenLast(a, b, s, d);
          DepthLast(a, b, s);
      }
    }
  }

  /** Scanning forward from an opening bracket finds the bracket that closes it, and gives up just when none
      does. */
  lemma ForwardMatches(a: char, b: char, text: string, i: nat)
    requires a != b && i < |text| && text[i] == a
    ensures Forward(a, b, text[i..], 0).Found? ==> Matches(a, b, text, i, i + Forward(a, b, text[i..], 0).index + 1)
    ensures Forward(a, b, text[i..], 0).Open? ==> Unclosed(a, b, text, i)
  {
    hide Depth, Between;
    var t := text[i..][1..];
    ForwardStops(a, b, t, 1);
    forall k | i < k <= |text|
      ensures Between(a, b, text, i, k) == 1 + Depth(a, b, t[..k - i - 1])
    {
      BetweenFirst(a, b, text, i, k);
      assert text[i..k][1..] == t[..k - i - 1];
    }
    var r := Forward(a, b, t, 1);
    if r.Found? {
      forall k | i < k < i + r.index + 2
        ensures Between(a, b, text, i, k) > 0
      {
        assert t[..r.index][..k - i - 1] == t[..k - i - 1];
      }
    }
  }

  lemma BetweenFirst(a: char, b: char, text: string, i: nat, j: nat)
    requires i < j <= |text|
    ensures Between(a, b, text, i, j) == Weight(a, b, text[i]) + Depth(a, b, text[i..j][1..])
  {
    DepthFirst(a, b, text[i..j]);
  }

  /** The same match, measured from its end. */
  ghost predicate MatchesBack(a: char, b: char, text: string, i: nat, end: nat) {
    && i + 1 < end <= |text|
    && Between(a, b, text, i, end) == 0
    && forall k :: i < k < end ==> Between(a, b, text, k, end) < 0
  }

  lemma MatchFromEnd(a: char, b: char, text: string, i: nat, end: nat)
    ensures Matches(a, b, text, i, end) <==> MatchesBack(a, b, text, i, end)
  {
    hide Between;
    if i + 1 < end <= |text| && Between(a, b, text, i, end) == 0 {
      forall k | i < k < end
        ensures Between(a, b, text, i, k) + Between(a, b, text, k, end) == 0
      {
        DepthSplit(a, b, text, i, k, end);
      }
    }
  }

  lemma BackwardMatches(a: char, b: char, text: string, end: nat)
    requires a != b && 0 < end <= |text| && text[end - 1] == b
    ensures Backward(a, b, text[..end], 0).Found? ==> Matches(a, b, text, Backward(a, b, text[..end], 0).index, end)
    ensures Backward(a, b, text[..end], 0).Open? ==> Unopened(a, b, text, end)
  {
    hide Depth, Between, Matches, MatchesBack, StaysOpenBack;
    var t := text[..end][..end - 1];
    BackwardStops(a, b, t, 1);
    var r := Backward(a, b, t, 1);
    if r.Found? {
      FoundBack(a, b, text, end, t, r.index);
      MatchFromEnd(a, b, text, r.index, end);
    } else {
      forall i: nat
        ensures !Matches(a, b, text, i, end)
      {
        NotFoundBack(a, b, text, end, t, i);
        MatchFromEnd(a, b, text, i, end);
      }
    }
  }

  lemma BeforeClose(a: char, b: char, text: string, end: nat, t: string, k: nat)
    requires a != b && k < end <= |text| && text[end - 1] == b && t == text[..end][..end - 1]
    ensures Between(a, b, text, k, end) == Depth(a, b, t[k..]) - 1
  {
    hide Depth, Between;
    BetweenLast(a, b, text, k, end);
    assert text[k..end - 1] == t[k..];
  }

  lemma FoundBack(a: char, b: char, text: string, end: nat, t: string, i: nat)
    requires a != b && 0 < end <= |text| && text[end - 1] == b && t == text[..end][..end - 1] && i < |t|
    requires StaysOpenBack(a, b, t[i + 1..], 1) && 1 - Depth(a, b, t[i..]) == 0
    ensures MatchesBack(a, b, text, i, end)
  {
    hide Depth, Between;
    BeforeClose(a, b, text, end, t, i);
    forall k | i < k < end
      ensures Between(a, b, text, k, end) < 0
    {
      BeforeClose(a, b, text, end, t, k);
      assert t[i + 1..][k - i - 1..] == t[k..];
    }
  }

  lemma NotFoundBack(a: char, b: char, text: string, end: nat, t: string, i: nat)
    requires a != b && 0 < end <= |text| && text[end - 1] == b && t == text[..end][..end - 1]
    requires StaysOpenBack(a, b, t, 1)
    ensures !MatchesBack(a, b, text, i, end)
  {
    hide Depth, Between;
    if i < end {
      BeforeClose(a, b, text, end, t, i);
    }
  }

  lemma BetweenLast(a: char, b: char, text: string, i: nat, j: nat)
    requires i < j <= |text|
    ensures Between(a, b, text, i, j) == Depth(a, b, text[i..j - 1]) + Weight(a, b, text[j - 1])
  {
    assert text[i..j][..j - i - 1] == text[i..j - 1];
  }

  lemma InsideMatch(a: char, b: char, text: string, i: nat, end: nat, k: nat)
    requires Matches(a, b, text, i, end) && i < k < end
    ensures Between(a, b, text, i, k) > 0 && Between(a, b, text, k, end) < 0
  {
    hide Between;
    DepthSplit(a, b, text, i, k, end);
  }

  lemma MatchBalanced(a: char, b: char, text: string, i: nat, end: nat)
    requires Matches(a, b, text, i, end)
    ensures i < end <= |text| && Between(a, b, text, i, end) == 0
  {
  }

  /** A bracket is closed by at most one, and closes at most one. */
  lemma MatchUnique(a: char, b: char, text: string, i: nat, end: nat, i': nat, end': nat)
    requires Matches(a, b, text, i, end) && Matches(a, b, text, i', end')
    ensures i == i' <==> end == end'
  {
    hide Between, Matches;
    MatchBalanced(a, b, text, i, end);
    MatchBalanced(a, b, text, i', end');
    if i == i' && end < end' {
      InsideMatch(a, b, text, i', end', end);
    } else if i == i' && end' < end {
      InsideMatch(a, b, text, i, end, end');
    } else if end == end' && i < i' {
      InsideMatch(a, b, text, i, end, i');
    } else if end == end' && i' < i {
      InsideMatch(a, b, text, i', end', i);
    }
  }

  // ---------- A text in lines ----------

  function Text(lines: seq<string>): string {
    if lines == [] then [] else lines[0] + Text(lines[1..])
  }

  /** The index in the text of position `pos` of line `linenum`. */
  function At(lines: seq<string>, linenum: nat, pos: nat): nat
    requires linenum <= |lines|
  {
    |Text(lines[..linenum])| + pos
  }

  lemma {:induction false} TextSplit(lines: seq<string>, n: nat)
    requires n <= |lines|
    ensures Text(lines) == Text(lines[..n]) + Text(lines[n..])
  {
    if n == 0 {
      assert lines[0..] == lines;
    } else {
      assert lines[..n][1..] == lines[1..][..n - 1] && lines[1..][n - 1..] == lines[n..];
      TextSplit(lines[1..], n - 1);
    }
  }

  lemma TextNext(lines: seq<string>, l: nat)
    requires l < |lines|
    ensures Text(lines[..l + 1]) == Text(lines[..l]) + lines[l]
    ensures Text(lines[l..]) == lines[l] + Text(lines[l + 1..])
  {
    var head := lines[..l + 1];
    assert head[..l] == lines[..l] && head[l..] == [lines[l]];
    TextSplit(head, l);
    assert [lines[l]][1..] == [];
    assert lines[l..][1..] == lines[l + 1..];
  }

  lemma SplitLine(u: string, line: string, v: string, p: nat)
    requires p <= |line|
    ensures var s, n := u + (line + v), |u| + p; s[n..] == line[p..] + v && s[..n] == u + line[..p]
  {
    var s := u + (line + v);
    assert s == (u + line[..p]) + (line[p..] + v);
  }

  lemma AtLine(lines: seq<string>, l: nat, p: nat)
    requires l < |lines| && p <= |lines[l]|
    ensures At(lines, l, p) <= |Text(lines)| && At(lines, l, p) + |lines[l]| - p == At(lines, l + 1, 0)
    ensures Text(lines)[At(lines, l, p)..] == lines[l][p..] + Text(lines[l + 1..])
    ensures Text(lines)[..At(lines, l, p)] == Text(lines[..l]) + lines[l][..p]
    ensures p < |lines[l]| ==> At(lines, l, p) < |Text(lines)| && Text(lines)[At(lines, l, p)] == lines[l][p]
  {
    hide Text;
    TextSplit(lines, l);
    TextNext(lines, l);
    SplitLine(Text(lines[..l]), lines[l], Text(lines[l + 1..]), p);
  }

  lemma {:induction false} AtMonotone(lines: seq<string>, l: nat, l': nat)
    requires l <= l' <= |lines|
    ensures At(lines, l, 0) <= At(lines, l', 0)
    decreases l' - l
  {
    if l < l' {
      AtLine(lines, l, 0);
      AtMonotone(lines, l + 1, l');
    }
  }

  /** Every index of the text is one position. */
  lemma AtUnique(lines: seq<string>, l: nat, p: nat, l': nat, p': nat)
    requires l < |lines| && p < |lines[l]| && l' < |lines| && p' < |lines[l']|
    requires At(lines, l, p) == At(lines, l', p')
    ensures l == l' && p == p'
  {
    hide Text;
    AtLine(lines, l, p);
    AtLine(lines, l', p');
    if l < l' {
      AtMonotone(lines, l + 1, l');
    } else if l' < l {
      AtMonotone(lines, l' + 1, l);
    }
  }

  // ---------- Scanning line by line ----------

  /** Scanning two texts in turn is scanning them joined. */
  lemma {:induction false} ForwardConcat(a: char, b: char, s: string, t: string, d: int)
    ensures Forward(a, b, s + t, d)
         == match Forward(a, b, s, d) { case Found(k) => Found(k) case Open(e) => Shift(|s|, Forward(a, b, t, e)) }
    decreases |s|
  {
    if s == [] {
      assert s + t == t;
    } else {
      assert (s + t)[1..] == s[1..] + t;
      ForwardConcat(a, b, s[1..], t, d + Weight(a, b, s[0]));
    }
  }

  lemma {:induction false} BackwardConcat(a: char, b: char, s: string, t: string, d: int)
    ensures Backward(a, b, s + t, d)
         == match Backward(a, b, t, d) { case Found(k) => Found(|s| + k) case Open(e) => Backward(a, b, s, e) }
    decreases |t|
  {
    if t == [] {
      assert s + t == s;
    } else {
      var n := |t| - 1;
      assert (s + t)[..|s| + n] == s + t[..n];
      BackwardConcat(a, b, s, t[..n], d - Weight(a, b, t[n]));
    }
  }

  /** The position after the close, or the brackets open at the end of the line. */
  method FindEndOfExpressionInLine(line: string, startpos: nat, depth: int, startchar: char, endchar: char)
    returns (pos: int, open: int)
    requires startpos <= |line| && startchar != endchar
    ensures match Forward(startchar, endchar, line[startpos..], depth)
            case Found(k) => startpos < pos <= |line| && pos == startpos + k + 1 && open == 0
            case Open(e) => pos == -1 && open == e
  {
    open := depth;
    for i := startpos to |line|
      invariant Forward(startchar, endchar, line[startpos..], depth)
             == Shift(i - startpos, Forward(startchar, endchar, line[i..], open))
    {
      assert line[i..][1..] == line[i + 1..];
      if line[i] == startchar {
        open := open + 1;
      } else if line[i] == endchar {
        open := open - 1;
        if open == 0 {
          return i + 1, 0;
        }
      }
    }
    return -1, open;
  }

  /** The position of the opening, or the brackets open at the beginning of the line. */
  method FindStartOfExpressionInLine(line: string, endpos: int, depth: int, startchar: char, endchar: char)
    returns (pos: int, open: int)
    requires -1 <= endpos < |line| && startchar != endchar
    ensures match Backward(startchar, endchar, line[..endpos + 1], depth)
            case Found(k) => 0 <= pos <= endpos && pos == k && open == 0
            case Open(e) => pos == -1 && open == e
  {
    open := depth;
    for i := endpos + 1 downto 0
      invariant Backward(startchar, endchar, line[..endpos + 1], depth) == Backward(startchar, endchar, line[..i], open)
    {
      assert line[..i + 1][..i] == line[..i];
      if line[i] == endchar {
        open := open + 1;
      } else if line[i] == startchar {
        open := open - 1;
        if open == 0 {
          return i, 0;
        }
      }
    }
    return -1, open;
  }

  /** The answer of a forward search from position `pos` of line `linenum`: the place just past the bracket that
      closes the one there, or none when it is not an opening bracket or is never closed. */
  ghost predicate IsClose(lines: seq<string>, linenum: nat, pos: nat, line: string, num: nat, end: int)
    requires linenum < |lines| && pos < |lines[linenum]|
  {
    var c := lines[linenum][pos];
    if end == -1 then
      && num == |lines|
      && line == (if IsOpening(c) then lines[|lines| - 1] else lines[linenum])
      && (IsOpening(c) ==> Unclosed(c, CloserOf(c), Text(lines), At(lines, linenum, pos)))
    else
      && IsOpening(c) && num < |lines| && line == lines[num] && 0 < end <= |line|
      && Matches(c, CloserOf(c), Text(lines), At(lines, linenum, pos), At(lines, num, end))
  }

  /** The answer of a backward search: the place of the bracket that the one at `pos` closes. */
  ghost predicate IsOpen(lines: seq<string>, linenum: nat, pos: nat, line: string, num: nat, start: int)
    requires linenum < |lines| && pos < |lines[linenum]|
  {
    var c := lines[linenum][pos];
    if start == -1 then
      && num == 0
      && line == (if IsClosing(c) then lines[0] else lines[linenum])
      && (IsClosing(c) ==> Unopened(OpenerOf(c), c, Text(lines), At(lines, linenum, pos + 1)))
    else
      && IsClosing(c) && num < |lines| && line == lines[num] && 0 <= start < |line|
      && Matches(OpenerOf(c), c, Text(lines), At(lines, num, start), At(lines, linenum, pos + 1))
  }

  /** What is left of a forward scan from `(linenum, pos)` when it has read the lines up to `num`. */
  ghost predicate ScannedTo(lines: seq<string>, linenum: nat, pos: nat, a: char, b: char, num: nat, open: int)
    requires linenum < num <= |lines| && pos < |lines[linenum]|
  {
    var i, n := At(lines, linenum, pos), At(lines, num, 0);
    && i <= n && i <= |Text(lines)|
    && Forward(a, b, Text(lines)[i..], 0) == Shift(n - i, Forward(a, b, Text(lines[num..]), open))
  }

  method CloseExpression(lines: seq<string>, linenum: nat, pos: nat) returns (line: string, num: nat, end: int)
    requires linenum < |lines| && pos < |lines[linenum]|
    ensures IsClose(lines, linenum, pos, line, num, end)
  {
    hide Forward, Text, Matches;
    line := lines[linenum];
    var startchar := line[pos];
    if !IsOpening(startchar) {
      return line, |lines|, -1;
    }
    var endchar := CloserOf(startchar);
    ghost var i := At(lines, linenum, pos);
    AtLine(lines, linenum, pos);
    ForwardMatches(startchar, endchar, Text(lines), i);
    ForwardConcat(startchar, endchar, line[pos..], Text(lines[linenum + 1..]), 0);
    var open: int;
    end, open := FindEndOfExpressionInLine(line, pos, 0, startchar, endchar);
    if end > -1 {
      return line, linenum, end;
    }
    num := linenum;
    while num < |lines| - 1
      invariant linenum <= num < |lines| && line == lines[num]
      invariant ScannedTo(lines, linenum, pos, startchar, endchar, num + 1, open)
    {
      num := num + 1;
      line := lines[num];
      TextNext(lines, num);
      AtLine(lines, num, 0);
      ForwardConcat(startchar, endchar, line, Text(lines[num + 1..]), open);
      assert line[0..] == line;
      end, open := FindEndOfExpressionInLine(line, 0, open, startchar, endchar);
      if end > -1 {
        return line, num, end;
      }
    }
    assert Forward(startchar, endchar, Text(lines[|lines|..]), open) == Open(open) by {
      ForwardNothing(startchar, endchar, lines[|lines|..], open);
    }
    return line, |lines|, -1;
  }

  lemma ForwardNothing(a: char, b: char, lines: seq<string>, d: int)
    requires lines == []
    ensures Forward(a, b, Text(lines), d) == Open(d) && Backward(a, b, Text(lines), d) == Open(d)
  {
  }

  method ReverseCloseExpression(lines: seq<string>, linenum: nat, pos: nat)
    returns (line: string, num: nat, start: int)
    requires linenum < |lines| && pos < |lines[linenum]|
    ensures IsOpen(lines, linenum, pos, line, num, start)
  {
    hide Backward, Text, Matches;
    line := lines[linenum];
    var endchar := line[pos];
    if !IsClosing(endchar) {
      return line, 0, -1;
    }
    var startchar := OpenerOf(endchar);
    ghost var j := At(lines, linenum, pos + 1);
    AtLine(lines, linenum, pos);
    AtLine(lines, linenum, pos + 1);
    BackwardMatches(startchar, endchar, Text(lines), j);
    BackwardConcat(startchar, endchar, Text(lines[..linenum]), line[..pos + 1], 0);
    var open: int;
    start, open := FindStartOfExpressionInLine(line, pos, 0, startchar, endchar);
    if start > -1 {
      return line, linenum, start;
    }
    num := linenum;
    while num > 0
      invariant num <= linenum && line == lines[num]
      invariant Backward(startchar, endchar, Text(lines)[..j], 0)
           == Backward(startchar, endchar, Text(lines[..num]), open)
    {
      num := num - 1;
      line := lines[num];
      TextNext(lines, num);
      BackwardConcat(startchar, endchar, Text(lines[..num]), line, open);
      assert line[..|line|] == line;
      start, open := FindStartOfExpressionInLine(line, |line| - 1, open, startchar, endchar);
      if start > -1 {
        return line, num, start;
      }
    }
    ForwardNothing(startchar, endchar, lines[..0], open);
    return line, 0, -1;
  }

  // ---------- The two searches are inverse ----------

  lemma MatchEnds(a: char, b: char, text: string, i: nat, end: nat)
    requires a != b && Matches(a, b, text, i, end)
    ensures text[i] == a && text[end - 1] == b
  {
    InsideMatch(a, b, text, i, end, i + 1);
    InsideMatch(a, b, text, i, end, end - 1);
    assert text[i..i + 1][..0] == [] && text[end - 1..end][..0] == [];
  }

  lemma MatchExcludes(a: char, b: char, text: string, i: nat, end: nat)
    requires Matches(a, b, text, i, end)
    ensures !Unclosed(a, b, text, i) && !Unopened(a, b, text, end)
  {
  }

  /** Searching back from the close that a forward search found leads to where it started. */
  lemma CloseThenOpen(lines: seq<string>, l: nat, p: nat, line: string, num: nat, end: int, line': string, num': nat,
                      start: int)
    requires l < |lines| && p < |lines[l]| && end != -1 && IsClose(lines, l, p, line, num, end)
    requires IsOpen(lines, num, end - 1, line', num', start)
    ensures (line', num', start) == (lines[l], l, p)
  {
    hide Matches, Text, Unclosed, Unopened;
    var c, text := lines[l][p], Text(lines);
    var d := CloserOf(c);
    MatchEnds(c, d, text, At(lines, l, p), At(lines, num, end));
    AtLine(lines, num, end - 1);
    MatchExcludes(c, d, text, At(lines, l, p), At(lines, num, end));
    if start != -1 {
      MatchUnique(c, d, text, At(lines, l, p), At(lines, num, end), At(lines, num', start), At(lines, num, end));
      AtUnique(lines, l, p, num', start);
    }
  }

  /** Searching forward from the opening that a backward search found leads to where it started. */
  lemma OpenThenClose(lines: seq<string>, l: nat, p: nat, line: string, num: nat, start: int, line': string, num': nat,
                      end: int)
    requires l < |lines| && p < |lines[l]| && start != -1 && IsOpen(lines, l, p, line, num, start)
    requires IsClose(lines, num, start, line', num', end)
    ensures (line', num', end) == (lines[l], l, p + 1)
  {
    hide Matches, Text, Unclosed, Unopened;
    var d, text := lines[l][p], Text(lines);
    var c := OpenerOf(d);
    MatchEnds(c, d, text, At(lines, num, start), At(lines, l, p + 1));
    AtLine(lines, num, start);
    MatchExcludes(c, d, text, At(lines, num, start), At(lines, l, p + 1));
    if end != -1 {
      MatchUnique(c, d, text, At(lines, num, start), At(lines, l, p + 1), At(lines, num, start), At(lines, num', end));
      AtUnique(lines, l, p, num', end - 1);
    }
  }

  // ---------- Which bracket closes which ----------

  lemma {:induction false} DepthNone(a: char, b: char, s: string)
    requires a !in s && b !in s
    ensures Depth(a, b, s) == 0
  {
    if s != [] {
      DepthNone(a, b, s[..|s| - 1]);
    }
  }

  /** A bracket is closed by the next closing one when there is no bracket between them. */
  lemma NextMatches(a: char, b: char, text: string, i: nat, k: nat)
    requires a != b && i < k < |text| && text[i] == a && text[k] == b
    requires forall m :: i < m < k ==> text[m] != a && text[m] != b
    ensures Matches(a, b, text, i, k + 1)
  {
    hide Depth, Between;
    forall m | i < m <= k
      ensures Between(a, b, text, i, m) == 1
    {
      BetweenFirst(a, b, text, i, m);
      DepthNone(a, b, text[i..m][1..]);
    }
    BetweenLast(a, b, text, i, k + 1);
    assert Between(a, b, text, i, k) == 1;
    DepthBetween(a, b, text, i, k);
  }

  lemma DepthBetween(a: char, b: char, text: string, i: nat, j: nat)
    requires i <= j <= |text|
    ensures Between(a, b, text, i, j) == Depth(a, b, text[i..j])
  {
  }

  /** The four kinds of brackets, in a text of any lines: the forward search from `a` ends just past the next `b`, and
      the backward search from `b` at the last `a`, when there is no `a` or `b` between them. */
  lemma PairsClose(a: char, b: char, lines: seq<string>, l: nat, p: nat, m: nat, q: nat)
    requires (a == '(' && b == ')') || (a == '[' && b == ']') || (a == '{' && b == '}') || (a == '<' && b == '>')
    requires l < |lines| && p < |lines[l]| && lines[l][p] == a && m < |lines| && q < |lines[m]| && lines[m][q] == b
    requires At(lines, l, p) < At(lines, m, q) < |Text(lines)|
    requires forall k :: At(lines, l, p) < k < At(lines, m, q) ==> Text(lines)[k] != a && Text(lines)[k] != b
    ensures forall line, num: nat, end: int :: IsClose(lines, l, p, line, num, end) ==>
              (line, num, end) == (lines[m], m, q + 1)
    ensures forall line, num: nat, start: int :: IsOpen(lines, m, q, line, num, start) ==>
              (line, num, start) == (lines[l], l, p)
  {
    hide Text, Matches, Unclosed, Unopened;
    var text, i, k := Text(lines), At(lines, l, p), At(lines, m, q);
    AtLine(lines, l, p);
    AtLine(lines, m, q);
    NextMatches(a, b, text, i, k);
    MatchExcludes(a, b, text, i, k + 1);
    forall line, num: nat, end: int | IsClose(lines, l, p, line, num, end)
      ensures (line, num, end) == (lines[m], m, q + 1)
    {
      MatchUnique(a, b, text, i, k + 1, i, At(lines, num, end));
      AtUnique(lines, m, q, num, end - 1);
    }
    forall line, num: nat, start: int | IsOpen(lines, m, q, line, num, start)
      ensures (line, num, start) == (lines[l], l, p)
    {
      MatchUnique(a, b, text, i, k + 1, At(lines, num, start), k + 1);
      AtUnique(lines, l, p, num, start);
    }
  }

  /** On one line, with any text without the two brackets between them. */
  lemma OneLine(a: char, b: char, s: string, line: string, num: nat, end: int)
    requires (a == '(' && b == ')') || (a == '[' && b == ']') || (a == '{' && b == '}') || (a == '<' && b == '>')
    requires a !in s && b !in s && IsClose([[a] + s + [b]], 0, 0, line, num, end)
    ensures num == 0 && end == |s| + 2
  {
    var lines, n := [[a] + s + [b]], |s| + 1;
    assert lines[..0] == [] && lines[1..] == [];
    AtLine(lines, 0, 0);
    assert Text(lines) == lines[0];
    PairsClose(a, b, lines, 0, 0, 0, n);
  }

  /** A search from any other character finds nothing. */
  lemma OthersDoNot(lines: seq<string>, l: nat, p: nat, line: string, num: nat, at: int)
    requires l < |lines| && p < |lines[l]|
    ensures lines[l][p] !in "([{<" && IsClose(lines, l, p, line, num, at) ==>
              (line, num, at) == (lines[l], |lines|, -1)
    ensures lines[l][p] !in ")]}>" && IsOpen(lines, l, p, line, num, at) ==> (line, num, at) == (lines[l], 0, -1)
  {
    hide Matches, Text, Unclosed, Unopened;
    var c := lines[l][p];
    assert "([{<"[0] == '(' && "([{<"[1] == '[' && "([{<"[2] == '{' && "([{<"[3] == '<';
    assert ")]}>"[0] == ')' && ")]}>"[1] == ']' && ")]}>"[2] == '}' && ")]}>"[3] == '>';
  }
}
