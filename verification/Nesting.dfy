/** The nesting state of the linter (apps/caffe/scripts/cpp_lint.py): a stack of open blocks that follows the
    braces of a file and takes preprocessor conditionals into account. A line is given as the parts that the
    linter matches in it, in the order in which it consumes them. */
module Nesting {
  import opened Options

  // ---------- Lines and blocks ----------

  datatype Directive = Ordinary | If | Else | Endif

  /** A brace, semicolon or closed parenthesis; a brace that starts an assembly block says so. */
  datatype Token = OpenBrace(asm: bool) | Semicolon | CloseParen | CloseBrace

  /** `namespace name`, with the brace if it is on the same line. */
  datatype NamespaceHead = NamespaceHead(name: string, braced: bool)

  datatype ClassHead = ClassHead(name: string, isStruct: bool)

  datatype Access = Public | Private | Protected | Signals

  /** The code of a line: parentheses, whether it starts inline assembly, then the declarations, an access
      specifier, and the tokens that are left. */
  datatype Code = Code(opens: nat, closes: nat, asm: bool, namespaces: seq<NamespaceHead>,
                       classHead: Option<ClassHead>, bareColon: bool, access: Option<Access>, tokens: seq<Token>)

  datatype Line = Line(directive: Directive, code: Code)

  datatype Asm = NoAsm | InsideAsm | EndAsm | BlockAsm

  datatype Kind = Plain | Namespace(name: string) | Class(name: string, access: Access, derived: bool)

  datatype Block = Block(kind: Kind, seenOpenBrace: bool, openParentheses: int, inlineAsm: Asm)

  type Stack = seq<Block>

  function NewBlock(kind: Kind, seenOpenBrace: bool): Block {
    Block(kind, seenOpenBrace, 0, NoAsm)
  }

  predicate SeenOpenBrace(stack: Stack) {
    stack == [] || stack[|stack| - 1].seenOpenBrace
  }

  /** Replaces the innermost block. */
  function WithTop(stack: Stack, top: Block): Stack
    requires stack != []
  {
    stack[..|stack| - 1] + [top]
  }

  // ---------- One line, without its directive ----------

  function CountParentheses(b: Block, code: Code): Block {
    var change := code.opens - code.closes;
    var open := b.openParentheses + change;
    var asm :=
      match b.inlineAsm
      case NoAsm => if change != 0 && open == 1 && code.asm then InsideAsm else NoAsm
      case EndAsm => if change != 0 && open == 1 && code.asm then InsideAsm else NoAsm
      case InsideAsm => if open == 0 then EndAsm else InsideAsm
      case BlockAsm => BlockAsm;
    b.(openParentheses := open, inlineAsm := asm)
  }

  function Counted(stack: Stack, code: Code): Stack {
    if stack == [] then stack else WithTop(stack, CountParentheses(stack[|stack| - 1], code))
  }

  function PushNamespaces(stack: Stack, heads: seq<NamespaceHead>): Stack
    decreases |heads|
  {
    if heads == [] then stack
    else PushNamespaces(stack + [NewBlock(Namespace(heads[0].name), heads[0].braced)], heads[1..])
  }

  function PushClass(stack: Stack, head: Option<ClassHead>): Stack {
    if head.Some? && (stack == [] || stack[|stack| - 1].openParentheses == 0) then
      var access := if head.value.isStruct then Public else Private;
      stack + [NewBlock(Class(head.value.name, access, false), false)]
    else stack
  }

  function NoteBase(stack: Stack, bareColon: bool): Stack {
    if !SeenOpenBrace(stack) && stack[|stack| - 1].kind.Class? && bareColon then
      var top := stack[|stack| - 1];
      WithTop(stack, top.(kind := top.kind.(derived := true)))
    else stack
  }

  function SetAccess(stack: Stack, access: Option<Access>): Stack {
    if stack != [] && stack[|stack| - 1].kind.Class? && access.Some? then
      var top := stack[|stack| - 1];
      WithTop(stack, top.(kind := top.kind.(access := access.value)))
    else stack
  }

  function Consume(stack: Stack, token: Token): Stack {
    match token
    case OpenBrace(asm) =>
      if !SeenOpenBrace(stack) then WithTop(stack, stack[|stack| - 1].(seenOpenBrace := true))
      else stack + [NewBlock(Plain, true).(inlineAsm := if asm then BlockAsm else NoAsm)]
    case Semicolon => if !SeenOpenBrace(stack) then stack[..|stack| - 1] else stack
    case CloseParen => if !SeenOpenBrace(stack) then stack[..|stack| - 1] else stack
    case CloseBrace => if stack != [] then stack[..|stack| - 1] else stack
  }

  function ConsumeAll(stack: Stack, tokens: seq<Token>): Stack
    decreases |tokens|
  {
    if tokens == [] then stack else ConsumeAll(Consume(stack, tokens[0]), tokens[1..])
  }

  function Read(stack: Stack, code: Code): Stack {
    var declared := PushClass(PushNamespaces(Counted(stack, code), code.namespaces), code.classHead);
    ConsumeAll(SetAccess(NoteBase(declared, code.bareColon), code.access), code.tokens)
  }

  /** A file without conditionals. */
  function ReadAll(stack: Stack, codes: seq<Code>): Stack
    decreases |codes|
  {
    if codes == [] then stack else ReadAll(Read(stack, codes[0]), codes[1..])
  }

  // ---------- Conditionals: checkpoints of the stack ----------

  datatype PreprocessorInfo = PreprocessorInfo(stackBeforeIf: Stack, stackBeforeElse: Stack, seenElse: bool)

  datatype State = State(stack: Stack, ppStack: seq<PreprocessorInfo>)

  function Preprocess(s: State, directive: Directive): State {
    var n := |s.ppStack| - 1;
    match directive
    case Ordinary => s
    case If => s.(ppStack := s.ppStack + [PreprocessorInfo(s.stack, [], false)])
    case Else =>
      if n < 0 then s
      else
        var top := s.ppStack[n];
        var noted := if top.seenElse then top else top.(seenElse := true, stackBeforeElse := s.stack);
        State(top.stackBeforeIf, s.ppStack[..n] + [noted])
    case Endif =>
      if n < 0 then s
      else State(if s.ppStack[n].seenElse then s.ppStack[n].stackBeforeElse else s.stack, s.ppStack[..n])
  }

  function Step(s: State, line: Line): State {
    var t := Preprocess(s, line.directive);
    t.(stack := Read(t.stack, line.code))
  }

  function Run(s: State, lines: seq<Line>): State
    decreases |lines|
  {
    if lines == [] then s else Run(Step(s, lines[0]), lines[1..])
  }

  // ---------- Conditionals: the text that counts ----------

  /** For each open conditional, whether its first branch is over. */
  function Follow(over: seq<bool>, directive: Directive): seq<bool> {
    var n := |over| - 1;
    match directive
    case Ordinary => over
    case If => over + [false]
    case Else => if n < 0 then over else over[..n] + [true]
    case Endif => if n < 0 then over else over[..n]
  }

  function FollowAll(over: seq<bool>, lines: seq<Line>): seq<bool>
    decreases |lines|
  {
    if lines == [] then over else FollowAll(Follow(over, lines[0].directive), lines[1..])
  }

  /** The code of the lines that are in the first branch of every conditional around them. The line with an
      `#else` or `#elif` that ends a first branch is out, the line with its `#endif` is in again. */
  function Kept(over: seq<bool>, lines: seq<Line>): seq<Code>
    decreases |lines|
  {
    if lines == [] then []
    else
      var after := Follow(over, lines[0].directive);
      (if true in after then [] else [lines[0].code]) + Kept(after, lines[1..])
  }

  function Flags(pps: seq<PreprocessorInfo>): (over: seq<bool>)
    ensures |over| == |pps| && forall i :: 0 <= i < |pps| ==> over[i] == pps[i].seenElse
  {
    seq(|pps|, i requires 0 <= i < |pps| => pps[i].seenElse)
  }

  /** `i` is the outermost conditional whose first branch is over. */
  ghost predicate Outermost(pps: seq<PreprocessorInfo>, i: nat) {
    i < |pps| && pps[i].seenElse && forall k :: 0 <= k < i ==> !pps[k].seenElse
  }

  /** The stack `kept` is the current one, or the one put aside at the end of the outermost first branch that is
      over. */
  ghost predicate Holds(s: State, kept: Stack) {
    && (true !in Flags(s.ppStack) ==> s.stack == kept)
    && forall i: nat :: Outermost(s.ppStack, i) ==> s.ppStack[i].stackBeforeElse == kept
  }

  lemma FlagsFollow(s: State, directive: Directive)
    ensures Flags(Preprocess(s, directive).ppStack) == Follow(Flags(s.ppStack), directive)
  {
    var n := |s.ppStack| - 1;
    if directive == Else && n >= 0 {
      assert forall i :: 0 <= i < n ==> Preprocess(s, directive).ppStack[i] == s.ppStack[i];
    }
  }

  lemma IfHolds(s: State, kept: Stack)
    requires Holds(s, kept)
    ensures Holds(Preprocess(s, If), kept)
  {
    var t := Preprocess(s, If);
    var n := |s.ppStack|;
    assert forall i :: 0 <= i < n ==> t.ppStack[i] == s.ppStack[i] && Flags(t.ppStack)[i] == Flags(s.ppStack)[i];
    forall i: nat | Outermost(t.ppStack, i)
      ensures t.ppStack[i].stackBeforeElse == kept
    {
      assert Outermost(s.ppStack, i);
    }
  }

  lemma ElseHolds(s: State, kept: Stack)
    requires Holds(s, kept)
    ensures Holds(Preprocess(s, Else), kept)
  {
    var t := Preprocess(s, Else);
    var n := |s.ppStack| - 1;
    if n >= 0 {
      assert forall i :: 0 <= i < n ==> t.ppStack[i] == s.ppStack[i];
      assert Flags(t.ppStack)[n];
      forall i: nat | Outermost(t.ppStack, i)
        ensures t.ppStack[i].stackBeforeElse == kept
      {
        if i < n || s.ppStack[n].seenElse {
          assert Outermost(s.ppStack, i);
        }
      }
    }
  }

  lemma EndifHolds(s: State, kept: Stack)
    requires Holds(s, kept)
    ensures Holds(Preprocess(s, Endif), kept)
  {
    var t := Preprocess(s, Endif);
    var n := |s.ppStack| - 1;
    if n >= 0 {
      assert forall i :: 0 <= i < n ==> t.ppStack[i] == s.ppStack[i] && Flags(t.ppStack)[i] == Flags(s.ppStack)[i];
      if true !in Flags(t.ppStack) && s.ppStack[n].seenElse {
        assert Outermost(s.ppStack, n);
      }
      forall i: nat | Outermost(t.ppStack, i)
        ensures t.ppStack[i].stackBeforeElse == kept
      {
        assert Outermost(s.ppStack, i);
      }
    }
  }

  lemma StepHolds(s: State, line: Line, kept: Stack)
    requires Holds(s, kept)
    ensures var after := Follow(Flags(s.ppStack), line.directive);
            && Flags(Step(s, line).ppStack) == after
            && Holds(Step(s, line), if true in after then kept else Read(kept, line.code))
  {
    hide Read;
    match line.directive {
      case Ordinary =>
      case If => IfHolds(s, kept);
      case Else => ElseHolds(s, kept);
      case Endif => EndifHolds(s, kept);
    }
    FlagsFollow(s, line.directive);
  }

  lemma {:induction false} RunHolds(s: State, lines: seq<Line>, kept: Stack)
    requires Holds(s, kept)
    ensures Flags(Run(s, lines).ppStack) == FollowAll(Flags(s.ppStack), lines)
    ensures Holds(Run(s, lines), ReadAll(kept, Kept(Flags(s.ppStack), lines)))
    decreases |lines|
  {
    hide Holds, Step, Read, Follow, Flags;
    if lines != [] {
      StepHolds(s, lines[0], kept);
      var after := Follow(Flags(s.ppStack), lines[0].directive);
      var rest := Kept(after, lines[1..]);
      if true in after {
        RunHolds(Step(s, lines[0]), lines[1..], kept);
        assert [] + rest == rest;
      } else {
        RunHolds(Step(s, lines[0]), lines[1..], Read(kept, lines[0].code));
        assert ([lines[0].code] + rest)[1..] == rest;
      }
    }
  }

  /** At every point of a file outside the dead branches, the stack is that of the file with everything from each
      first `#else` or `#elif` up to its `#endif` deleted, whatever conditionals stand in one another or do not
      pair up. */
  lemma DeadBranchesDeleted(lines: seq<Line>)
    requires true !in FollowAll([], lines)
    ensures Run(State([], []), lines).stack == ReadAll([], Kept([], lines))
  {
    var s := State([], []);
    assert Flags(s.ppStack) == [];
    RunHolds(s, lines, []);
  }

  // ---------- Well-nested conditionals ----------

  datatype Source =
    | End
    | Row(code: Code, rest: Source)
    | Conditional(ifCode: Code, body: Source, others: Branches, endCode: Code, rest: Source)

  datatype Branches = NoMore | Branch(elseCode: Code, body: Source, rest: Branches)

  function Lines(src: Source): seq<Line> {
    match src
    case End => []
    case Row(code, rest) => [Line(Ordinary, code)] + Lines(rest)
    case Conditional(i, body, others, e, rest) =>
      [Line(If, i)] + (Lines(body) + (BranchLines(others) + ([Line(Endif, e)] + Lines(rest))))
  }

  function BranchLines(others: Branches): seq<Line> {
    match others
    case NoMore => []
    case Branch(e, body, rest) => [Line(Else, e)] + (Lines(body) + BranchLines(rest))
  }

  /** The code with only the first branch of every conditional. */
  function FirstBranches(src: Source): seq<Code> {
    match src
    case End => []
    case Row(code, rest) => [code] + FirstBranches(rest)
    case Conditional(i, body, others, e, rest) => [i] + (FirstBranches(body) + ([e] + FirstBranches(rest)))
  }

  lemma KeptFirst(over: seq<bool>, line: Line, more: seq<Line>)
    ensures var after := Follow(over, line.directive);
            && Kept(over, [line] + more) == (if true in after then [] else [line.code]) + Kept(after, more)
            && FollowAll(over, [line] + more) == FollowAll(after, more)
  {
    assert ([line] + more)[1..] == more;
  }

  lemma InOneMore(over: seq<bool>, b: bool)
    ensures true in over + [b] <==> true in over || b
    ensures (over + [b])[..|over|] == over
  {
    assert (over + [b])[|over|] == b;
  }

  /** In front of `more`, of `lines` exactly `codes` are kept, or nothing inside a dead branch. */
  ghost predicate Keeps(over: seq<bool>, lines: seq<Line>, codes: seq<Code>, more: seq<Line>) {
    && FollowAll(over, lines + more) == FollowAll(over, more)
    && Kept(over, lines + more) == (if true in over then [] else codes) + Kept(over, more)
  }

  lemma KeepsRow(over: seq<bool>, code: Code, lines: seq<Line>, codes: seq<Code>, more: seq<Line>)
    requires Keeps(over, lines, codes, more)
    ensures Keeps(over, [Line(Ordinary, code)] + lines, [code] + codes, more)
  {
    hide Kept, FollowAll;
    KeptFirst(over, Line(Ordinary, code), lines + more);
    assert ([Line(Ordinary, code)] + lines) + more == [Line(Ordinary, code)] + (lines + more);
  }

  lemma KeepsConditional(over: seq<bool>, i: Code, body: seq<Line>, bodyCodes: seq<Code>, others: seq<Line>, b: bool,
                         e: Code, rest: seq<Line>, restCodes: seq<Code>, more: seq<Line>)
    requires Keeps(over, rest, restCodes, more)
    requires var tail := [Line(Endif, e)] + (rest + more);
             && Keeps(over + [false], body, bodyCodes, others + tail)
             && Kept(over + [false], others + tail) == Kept(over + [b], tail)
             && FollowAll(over + [false], others + tail) == FollowAll(over + [b], tail)
    ensures Keeps(over, [Line(If, i)] + (body + (others + ([Line(Endif, e)] + rest))),
                  [i] + (bodyCodes + ([e] + restCodes)), more)
  {
    hide Kept, FollowAll;
    var tail := [Line(Endif, e)] + (rest + more);
    assert ([Line(If, i)] + (body + (others + ([Line(Endif, e)] + rest)))) + more
        == [Line(If, i)] + (body + (others + tail));
    InOneMore(over, false);
    InOneMore(over, b);
    KeptFirst(over, Line(If, i), body + (others + tail));
    KeptFirst(over + [b], Line(Endif, e), rest + more);
  }

  lemma {:induction false} KeptSource(over: seq<bool>, src: Source, more: seq<Line>)
    ensures Keeps(over, Lines(src), FirstBranches(src), more)
    decreases src
  {
    match src
    case End =>
      assert Lines(src) + more == more;
    case Row(code, rest) =>
      hide Keeps;
      KeptSource(over, rest, more);
      KeepsRow(over, code, Lines(rest), FirstBranches(rest), more);
    case Conditional(i, body, others, e, rest) =>
      hide Keeps;
      var tail := [Line(Endif, e)] + (Lines(rest) + more);
      KeptSource(over, rest, more);
      KeptSource(over + [false], body, BranchLines(others) + tail);
      KeptBranches(over, false, others, tail);
      KeepsConditional(over, i, Lines(body), FirstBranches(body), BranchLines(others), others.Branch?, e, Lines(rest),
                       FirstBranches(rest), more);
  }

  lemma {:induction false} KeptBranches(over: seq<bool>, seen: bool, others: Branches, more: seq<Line>)
    ensures var after := over + [seen || others.Branch?];
            && FollowAll(over + [seen], BranchLines(others) + more) == FollowAll(after, more)
            && Kept(over + [seen], BranchLines(others) + more) == Kept(after, more)
    decreases others
  {
    hide Kept, FollowAll;
    match others
    case NoMore =>
      assert BranchLines(others) + more == more;
    case Branch(e, body, rest) =>
      var after := over + [true];
      InOneMore(over, true);
      InOneMore(over, seen);
      assert BranchLines(others) + more == [Line(Else, e)] + (Lines(body) + (BranchLines(rest) + more));
      KeptFirst(over + [seen], Line(Else, e), Lines(body) + (BranchLines(rest) + more));
      KeptSource(after, body, BranchLines(rest) + more);
      KeptBranches(over, true, rest, more);
  }

  /** A whole well-nested file is read as the text of its first branches, and leaves no conditional open. */
  lemma SourceReadsFirstBranches(src: Source)
    ensures Run(State([], []), Lines(src)) == State(ReadAll([], FirstBranches(src)), [])
  {
    hide Run, ReadAll, Lines, FirstBranches;
    var s, lines := State([], []), Lines(src);
    assert lines + [] == lines && FirstBranches(src) + [] == FirstBranches(src);
    KeptSource([], src, []);
    assert Flags(s.ppStack) == [];
    RunHolds(s, lines, []);
    assert |Flags(Run(s, lines).ppStack)| == 0;
    DeadBranchesDeleted(lines);
  }

  // ---------- Every other branch starts over from its `#if` ----------

  lemma {:induction false} RunConcat(s: State, a: seq<Line>, b: seq<Line>)
    ensures Run(s, a + b) == Run(Run(s, a), b)
    decreases |a|
  {
    if a == [] {
      assert a + b == b;
    } else {
      assert (a + b)[1..] == a[1..] + b;
      RunConcat(Step(s, a[0]), a[1..], b);
    }
  }

  lemma RunFirst(s: State, line: Line, more: seq<Line>)
    ensures Run(s, [line] + more) == Run(Step(s, line), more)
  {
    assert ([line] + more)[1..] == more;
  }

  lemma {:induction false} SourceKeepsCheckpoints(s: State, src: Source)
    ensures Run(s, Lines(src)).ppStack == s.ppStack
    decreases src
  {
    hide Run, Read;
    match src
    case End =>
      RunNothing(s);
    case Row(code, rest) =>
      RunFirst(s, Line(Ordinary, code), Lines(rest));
      SourceKeepsCheckpoints(Step(s, Line(Ordinary, code)), rest);
    case Conditional(i, body, others, e, rest) =>
      var t := Step(s, Line(If, i));
      var u := Run(t, Lines(body));
      var v := Run(u, BranchLines(others));
      var tail := [Line(Endif, e)] + Lines(rest);
      RunFirst(s, Line(If, i), Lines(body) + (BranchLines(others) + tail));
      RunConcat(t, Lines(body), BranchLines(others) + tail);
      RunConcat(u, BranchLines(others), tail);
      RunFirst(v, Line(Endif, e), Lines(rest));
      SourceKeepsCheckpoints(t, body);
      BranchesKeepCheckpoint(u, others);
      assert v.ppStack[..|s.ppStack|] == s.ppStack;
      SourceKeepsCheckpoints(Step(v, Line(Endif, e)), rest);
  }

  lemma RunNothing(s: State)
    ensures Run(s, []) == s
  {
  }

  lemma {:induction false} BranchesKeepCheckpoint(s: State, others: Branches)
    requires s.ppStack != []
    ensures var n := |s.ppStack| - 1; var t := Run(s, BranchLines(others));
            && |t.ppStack| == n + 1 && t.ppStack[..n] == s.ppStack[..n]
            && t.ppStack[n].stackBeforeIf == s.ppStack[n].stackBeforeIf
    decreases others
  {
    hide Run, Read;
    match others
    case NoMore =>
      RunNothing(s);
    case Branch(e, body, rest) =>
      var t := Step(s, Line(Else, e));
      RunFirst(s, Line(Else, e), Lines(body) + BranchLines(rest));
      RunConcat(t, Lines(body), BranchLines(rest));
      SourceKeepsCheckpoints(t, body);
      BranchesKeepCheckpoint(Run(t, Lines(body)), rest);
  }

  /** After any branches of a conditional, the next `#else` or `#elif` is read with the stack from before its
      `#if`. */
  lemma OtherBranchStartsOver(s: State, ifCode: Code, body: Source, others: Branches, elseCode: Code)
    ensures Run(s, [Line(If, ifCode)] + (Lines(body) + (BranchLines(others) + [Line(Else, elseCode)]))).stack
         == Read(s.stack, elseCode)
  {
    hide Run, Read;
    var t := Step(s, Line(If, ifCode));
    var u := Run(t, Lines(body));
    var v := Run(u, BranchLines(others));
    var last := [Line(Else, elseCode)];
    RunFirst(s, Line(If, ifCode), Lines(body) + (BranchLines(others) + last));
    RunConcat(t, Lines(body), BranchLines(others) + last);
    RunConcat(u, BranchLines(others), last);
    SourceKeepsCheckpoints(t, body);
    BranchesKeepCheckpoint(u, others);
    assert last + [] == last;
    RunFirst(v, Line(Else, elseCode), []);
    RunNothing(Step(v, Line(Else, elseCode)));
  }

  // ---------- Braces ----------

  /** Balanced braces with any statements between them. */
  datatype Body = Empty | Statement(semicolon: bool, rest: Body) | Braces(asm: bool, inner: Body, rest: Body)

  function Tokens(body: Body): seq<Token> {
    match body
    case Empty => []
    case Statement(semicolon, rest) => [if semicolon then Semicolon else CloseParen] + Tokens(rest)
    case Braces(asm, inner, rest) => [OpenBrace(asm)] + (Tokens(inner) + ([CloseBrace] + Tokens(rest)))
  }

  lemma {:induction false} ConsumeConcat(stack: Stack, a: seq<Token>, b: seq<Token>)
    ensures ConsumeAll(stack, a + b) == ConsumeAll(ConsumeAll(stack, a), b)
    decreases |a|
  {
    if a == [] {
      assert a + b == b;
    } else {
      assert (a + b)[1..] == a[1..] + b;
      ConsumeConcat(Consume(stack, a[0]), a[1..], b);
    }
  }

  lemma ConsumeFirst(stack: Stack, t: Token, more: seq<Token>)
    ensures ConsumeAll(stack, [t] + more) == ConsumeAll(Consume(stack, t), more)
  {
    assert ([t] + more)[1..] == more;
  }

  /** Balanced code inside an open block leaves the stack as it was. */
  lemma {:induction false} BalancedRestores(stack: Stack, body: Body)
    requires SeenOpenBrace(stack)
    ensures ConsumeAll(stack, Tokens(body)) == stack
    decreases body
  {
    match body
    case Empty =>
    case Statement(semicolon, rest) =>
      ConsumeFirst(stack, if semicolon then Semicolon else CloseParen, Tokens(rest));
      BalancedRestores(stack, rest);
    case Braces(asm, inner, rest) =>
      var inside := Consume(stack, OpenBrace(asm));
      ConsumeFirst(stack, OpenBrace(asm), Tokens(inner) + ([CloseBrace] + Tokens(rest)));
      BalancedRestores(inside, inner);
      ConsumeConcat(inside, Tokens(inner), [CloseBrace] + Tokens(rest));
      ConsumeFirst(inside, CloseBrace, Tokens(rest));
      assert inside[..|inside| - 1] == stack;
      BalancedRestores(stack, rest);
  }

  /** A namespace or class head is gone again after its body in braces, and after the semicolon or parenthesis of
      a mere mention. */
  lemma DeclarationRestores(stack: Stack, head: Block, asm: bool, body: Body, mention: Token)
    requires !head.seenOpenBrace && (mention == Semicolon || mention == CloseParen)
    ensures ConsumeAll(stack + [head], [OpenBrace(asm)] + (Tokens(body) + [CloseBrace])) == stack
    ensures ConsumeAll(stack + [head], [mention]) == stack
  {
    hide Tokens;
    var top := stack + [head];
    var inside := Consume(top, OpenBrace(asm));
    ConsumeFirst(top, OpenBrace(asm), Tokens(body) + [CloseBrace]);
    ConsumeConcat(inside, Tokens(body), [CloseBrace]);
    BalancedRestores(inside, body);
    assert [CloseBrace] + [] == [CloseBrace] && [mention] + [] == [mention];
    ConsumeFirst(inside, CloseBrace, []);
    ConsumeFirst(top, mention, []);
    assert inside[..|inside| - 1] == stack && top[..|top| - 1] == stack;
  }

  // ---------- What a line opens ----------

  /** No parenthesis or assembly statement is open in the innermost block. */
  predicate Settled(stack: Stack) {
    stack != [] ==>
      var top := stack[|stack| - 1];
      top.openParentheses == 0 && (top.inlineAsm == NoAsm || top.inlineAsm == BlockAsm)
  }

  lemma SettledStays(stack: Stack, code: Code)
    requires Settled(stack) && code.opens == code.closes
    ensures Counted(stack, code) == stack
  {
    if stack != [] {
      var top := stack[|stack| - 1];
      assert CountParentheses(top, code) == top;
      assert WithTop(stack, top) == stack;
    }
  }

  /** An open block for each head, in order. */
  function Opened(heads: seq<NamespaceHead>): (blocks: seq<Block>)
    ensures |blocks| == |heads|
    ensures forall i :: 0 <= i < |heads| ==> blocks[i] == Block(Namespace(heads[i].name), true, 0, NoAsm)
  {
    seq(|heads|, i requires 0 <= i < |heads| => Block(Namespace(heads[i].name), true, 0, NoAsm))
  }

  lemma Append(stack: Stack, b: Block, more: Stack)
    ensures (stack + [b]) + more == stack + ([b] + more)
  {
  }

  lemma OpenedFirst(heads: seq<NamespaceHead>)
    requires heads != []
    ensures Opened(heads) == [Block(Namespace(heads[0].name), true, 0, NoAsm)] + Opened(heads[1..])
  {
    hide Opened;
  }

  lemma PushFirst(stack: Stack, heads: seq<NamespaceHead>)
    requires heads != [] && heads[0].braced
    ensures PushNamespaces(stack, heads)
         == PushNamespaces(stack + [Block(Namespace(heads[0].name), true, 0, NoAsm)], heads[1..])
  {
  }

  lemma {:induction false} BracedHeads(stack: Stack, heads: seq<NamespaceHead>)
    requires forall i :: 0 <= i < |heads| ==> heads[i].braced
    ensures PushNamespaces(stack, heads) == stack + Opened(heads)
    decreases |heads|
  {
    if heads != [] {
      hide PushNamespaces, Opened;
      var b := Block(Namespace(heads[0].name), true, 0, NoAsm);
      PushFirst(stack, heads);
      BracedHeads(stack + [b], heads[1..]);
      OpenedFirst(heads);
      Append(stack, b, Opened(heads[1..]));
    }
  }

  function Closing(n: nat): (tokens: seq<Token>)
    ensures |tokens| == n && forall i :: 0 <= i < n ==> tokens[i] == CloseBrace
  {
    seq(n, i => CloseBrace)
  }

  lemma {:induction false} ClosingPops(stack: Stack, n: nat)
    requires n <= |stack|
    ensures ConsumeAll(stack, Closing(n)) == stack[..|stack| - n]
    decreases n
  {
    if n > 0 {
      assert Closing(n)[1..] == Closing(n - 1);
      ClosingPops(stack[..|stack| - 1], n - 1);
    }
  }

  lemma OpenedSeen(stack: Stack, heads: seq<NamespaceHead>)
    requires SeenOpenBrace(stack)
    ensures SeenOpenBrace(stack + Opened(heads))
  {
  }

  /** A line of namespaces with their braces and balanced code after them opens these namespaces, by name and in
      order, on an open stack. As many closing braces after the code leave the stack as it was. */
  lemma NamespacesOpen(stack: Stack, code: Code, body: Body)
    requires SeenOpenBrace(stack) && Settled(stack) && code.opens == code.closes
    requires code.classHead == None && code.access == None
    requires forall i :: 0 <= i < |code.namespaces| ==> code.namespaces[i].braced
    ensures code.tokens == Tokens(body) ==> Read(stack, code) == stack + Opened(code.namespaces)
    ensures code.tokens == Tokens(body) + Closing(|code.namespaces|) ==> Read(stack, code) == stack
  {
    hide Counted, PushNamespaces, ConsumeAll, Consume, Tokens;
    var n := |code.namespaces|;
    var inside := stack + Opened(code.namespaces);
    SettledStays(stack, code);
    BracedHeads(stack, code.namespaces);
    OpenedSeen(stack, code.namespaces);
    BalancedRestores(inside, body);
    ConsumeConcat(inside, Tokens(body), Closing(n));
    ClosingPops(inside, n);
    assert inside[..|inside| - n] == stack;
  }

  /** A namespace without its brace takes the next brace for its own. */
  lemma NamespaceTakesBrace(stack: Stack, name: string, code: Code, next: Code, asm: bool, body: Body)
    requires SeenOpenBrace(stack) && Settled(stack) && code.opens == code.closes && next.opens == next.closes
    requires code.namespaces == [NamespaceHead(name, false)] && code.classHead == None && code.tokens == []
    requires next.namespaces == [] && next.classHead == None && next.tokens == [OpenBrace(asm)] + Tokens(body)
    ensures Read(Read(stack, code), next) == stack + [Block(Namespace(name), true, 0, NoAsm)]
  {
    hide ConsumeAll, Tokens, Counted;
    var head := Block(Namespace(name), false, 0, NoAsm);
    SettledStays(stack, code);
    assert code.namespaces[1..] == [];
    assert PushNamespaces(stack, code.namespaces) == stack + [head];
    ConsumeNone(stack + [head]);
    SettledStays(stack + [head], next);
    HeadOpens(stack, head, asm, body);
  }

  lemma ConsumeNone(stack: Stack)
    ensures ConsumeAll(stack, []) == stack
  {
  }

  lemma ClassPushed(stack: Stack, head: ClassHead)
    requires Settled(stack)
    ensures var access := if head.isStruct then Public else Private;
            PushClass(stack, Some(head)) == stack + [Block(Class(head.name, access, false), false, 0, NoAsm)]
  {
  }

  lemma BaseNoted(stack: Stack, name: string, access: Access, bareColon: bool)
    ensures NoteBase(stack + [Block(Class(name, access, false), false, 0, NoAsm)], bareColon)
         == stack + [Block(Class(name, access, bareColon), false, 0, NoAsm)]
  {
    assert (stack + [Block(Class(name, access, false), false, 0, NoAsm)])[..|stack|] == stack;
  }

  lemma AccessSet(stack: Stack, name: string, access: Access, derived: bool, seen: bool, said: Option<Access>)
    ensures SetAccess(stack + [Block(Class(name, access, derived), seen, 0, NoAsm)], said)
         == stack + [Block(Class(name, if said.Some? then said.value else access, derived), seen, 0, NoAsm)]
  {
    assert (stack + [Block(Class(name, access, derived), seen, 0, NoAsm)])[..|stack|] == stack;
  }

  /** The brace of a declaration and balanced code after it open its block. */
  lemma HeadOpens(stack: Stack, head: Block, asm: bool, body: Body)
    requires !head.seenOpenBrace
    ensures ConsumeAll(stack + [head], [OpenBrace(asm)] + Tokens(body)) == stack + [head.(seenOpenBrace := true)]
  {
    hide ConsumeAll, Tokens;
    ConsumeFirst(stack + [head], OpenBrace(asm), Tokens(body));
    assert (stack + [head])[..|stack|] == stack;
    BalancedRestores(stack + [head.(seenOpenBrace := true)], body);
  }

  /** A class or struct outside parentheses opens with its brace: a class is private and a struct public, unless the
      line says otherwise, and a colon makes it a derived one. Inside parentheses it is not noticed. */
  lemma ClassOpens(stack: Stack, code: Code, head: ClassHead, asm: bool, body: Body)
    requires SeenOpenBrace(stack) && Settled(stack) && code.opens == code.closes
    requires code.namespaces == [] && code.classHead == Some(head) && code.tokens == [OpenBrace(asm)] + Tokens(body)
    ensures var access := if code.access.Some? then code.access.value else if head.isStruct then Public else Private;
            Read(stack, code) == stack + [Block(Class(head.name, access, code.bareColon), true, 0, NoAsm)]
  {
    hide ConsumeAll, Tokens, Counted, PushClass, NoteBase, SetAccess;
    var start := if head.isStruct then Public else Private;
    var access := if code.access.Some? then code.access.value else start;
    SettledStays(stack, code);
    ClassPushed(stack, head);
    BaseNoted(stack, head.name, start, code.bareColon);
    AccessSet(stack, head.name, start, code.bareColon, false, code.access);
    HeadOpens(stack, Block(Class(head.name, access, code.bareColon), false, 0, NoAsm), asm, body);
  }

  /** Among the parameters of a function, a class is only a mention. */
  lemma ClassAmongParameters(stack: Stack, code: Code)
    requires stack != [] && stack[|stack| - 1].openParentheses + code.opens - code.closes != 0
    requires code.namespaces == []
    ensures Read(stack, code) == Read(stack, code.(classHead := None))
  {
    hide ConsumeAll, NoteBase, SetAccess;
    var counted := Counted(stack, code);
    assert counted == Counted(stack, code.(classHead := None));
    assert PushClass(counted, code.classHead) == counted;
  }

  /** An access specifier in an open class changes its access and nothing else. */
  lemma AccessChanges(stack: Stack, name: string, before: Access, derived: bool, code: Code, access: Access, body: Body)
    requires code.opens == code.closes && code.namespaces == [] && code.classHead == None
    requires code.access == Some(access) && code.tokens == Tokens(body)
    ensures Read(stack + [Block(Class(name, before, derived), true, 0, NoAsm)], code)
         == stack + [Block(Class(name, access, derived), true, 0, NoAsm)]
  {
    hide ConsumeAll, Tokens, Counted, SetAccess;
    SettledStays(stack + [Block(Class(name, before, derived), true, 0, NoAsm)], code);
    AccessSet(stack, name, before, derived, true, code.access);
    BalancedRestores(stack + [Block(Class(name, access, derived), true, 0, NoAsm)], body);
  }

  /** Any other brace opens a plain block, which says whether it is one of assembly. */
  lemma BraceOpens(stack: Stack, asm: bool, body: Body)
    requires SeenOpenBrace(stack)
    ensures ConsumeAll(stack, [OpenBrace(asm)] + Tokens(body))
         == stack + [Block(Plain, true, 0, if asm then BlockAsm else NoAsm)]
  {
    hide ConsumeAll, Tokens;
    ConsumeFirst(stack, OpenBrace(asm), Tokens(body));
    BalancedRestores(Consume(stack, OpenBrace(asm)), body);
  }

  // ---------- Parentheses and inline assembly ----------

  /** A line that has parentheses at most. */
  predicate Bare(code: Code) {
    code.namespaces == [] && code.classHead == None && !code.bareColon && code.access == None && code.tokens == []
  }

  /** Parentheses that the lines open, less those that they close. */
  function Balance(codes: seq<Code>): int {
    if codes == [] then 0 else codes[0].opens - codes[0].closes + Balance(codes[1..])
  }

  lemma ReadBare(stack: Stack, b: Block, code: Code)
    requires Bare(code)
    ensures Read(stack + [b], code) == stack + [CountParentheses(b, code)]
  {
    hide CountParentheses;
    assert (stack + [b])[..|stack|] == stack;
  }

  /** Lines that do not start inline assembly only add to the parentheses open in the innermost block. */
  lemma {:induction false} ParenthesesAdd(stack: Stack, b: Block, codes: seq<Code>)
    requires b.inlineAsm == NoAsm || b.inlineAsm == BlockAsm
    requires forall i :: 0 <= i < |codes| ==> Bare(codes[i]) && !codes[i].asm
    ensures ReadAll(stack + [b], codes) == stack + [b.(openParentheses := b.openParentheses + Balance(codes))]
    decreases |codes|
  {
    hide Read;
    if codes != [] {
      ReadBare(stack, b, codes[0]);
      ParenthesesAdd(stack, CountParentheses(b, codes[0]), codes[1..]);
    }
  }

  /** Inline assembly starts with a line that says so, changes the number of open parentheses and leaves one open; any
      other line leaves the block outside of assembly. */
  lemma AsmStarts(stack: Stack, b: Block, code: Code)
    requires Bare(code) && (b.inlineAsm == NoAsm || b.inlineAsm == EndAsm)
    ensures var open := b.openParentheses + code.opens - code.closes;
            var starts := code.asm && code.opens != code.closes && open == 1;
            Read(stack + [b], code)
            == stack + [b.(openParentheses := open, inlineAsm := if starts then InsideAsm else NoAsm)]
  {
    ReadBare(stack, b, code);
  }

  /** With so many parentheses open before them, some are open after each of the lines. */
  predicate StaysOpen(open: int, codes: seq<Code>)
    decreases |codes|
  {
    codes == [] || var next := open + codes[0].opens - codes[0].closes; next != 0 && StaysOpen(next, codes[1..])
  }

  /** Inline assembly goes on while its parentheses are open. */
  lemma {:induction false} AsmGoesOn(stack: Stack, b: Block, codes: seq<Code>)
    requires b.inlineAsm == InsideAsm && StaysOpen(b.openParentheses, codes)
    requires forall i :: 0 <= i < |codes| ==> Bare(codes[i])
    ensures ReadAll(stack + [b], codes) == stack + [b.(openParentheses := b.openParentheses + Balance(codes))]
    decreases |codes|
  {
    hide Read;
    if codes != [] {
      ReadBare(stack, b, codes[0]);
      AsmGoesOn(stack, CountParentheses(b, codes[0]), codes[1..]);
    }
  }

  /** An assembly statement: it starts with the line that opens its parenthesis, goes on until the line that closes
      it, which is its last, and is over with the next line. */
  lemma {:induction false} AsmStatement(stack: Stack, b: Block, first: Code, codes: seq<Code>, last: Code, next: Code)
    requires b.openParentheses == 0 && (b.inlineAsm == NoAsm || b.inlineAsm == EndAsm)
    requires Bare(first) && first.asm && first.opens - first.closes == 1
    requires forall i :: 0 <= i < |codes| ==> Bare(codes[i])
    requires StaysOpen(1, codes)
    requires Bare(last) && 1 + Balance(codes) + (last.opens - last.closes) == 0
    requires Bare(next) && next.opens == next.closes
    ensures ReadAll(Read(stack + [b], first), codes)
         == stack + [b.(openParentheses := 1 + Balance(codes), inlineAsm := InsideAsm)]
    ensures Read(ReadAll(Read(stack + [b], first), codes), last) == stack + [b.(inlineAsm := EndAsm)]
    ensures Read(stack + [b.(inlineAsm := EndAsm)], next) == stack + [b.(inlineAsm := NoAsm)]
  {
    hide Read;
    var inside := b.(openParentheses := 1, inlineAsm := InsideAsm);
    ReadBare(stack, b, first);
    AsmGoesOn(stack, inside, codes);
    ReadBare(stack, inside.(openParentheses := 1 + Balance(codes)), last);
    ReadBare(stack, b.(inlineAsm := EndAsm), next);
  }

  // ---------- The state as an object ----------

  class NestingState {
    var stack: Stack
    var ppStack: seq<PreprocessorInfo>

    ghost function Value(): State
      reads this
    {
      State(stack, ppStack)
    }

    constructor ()
      ensures Value() == State([], [])
    {
      stack, ppStack := [], [];
    }

    method UpdatePreprocessor(directive: Directive)
      modifies this
      ensures Value() == Preprocess(old(Value()), directive)
    {
      var n := |ppStack| - 1;
      match directive {
        case Ordinary =>
        case If =>
          ppStack := ppStack + [PreprocessorInfo(stack, [], false)];
        case Else =>
          if n >= 0 {
            if !ppStack[n].seenElse {
              ppStack := ppStack[..n] + [ppStack[n].(seenElse := true, stackBeforeElse := stack)];
            }
            stack := ppStack[n].stackBeforeIf;
          }
        case Endif =>
          if n >= 0 {
            if ppStack[n].seenElse {
              stack := ppStack[n].stackBeforeElse;
            }
            ppStack := ppStack[..n];
          }
      }
    }

    /** Counts parentheses in the innermost block, and sees inline assembly begin and end. */
    method CountInnermost(code: Code)
      modifies `stack
      ensures stack == Counted(old(stack), code)
    {
      if stack != [] {
        var n := |stack| - 1;
        var change := code.opens - code.closes;
        stack := stack[n := stack[n].(openParentheses := stack[n].openParentheses + change)];
        if stack[n].inlineAsm == NoAsm || stack[n].inlineAsm == EndAsm {
          if change != 0 && stack[n].openParentheses == 1 && code.asm {
            stack := stack[n := stack[n].(inlineAsm := InsideAsm)];
          } else {
            stack := stack[n := stack[n].(inlineAsm := NoAsm)];
          }
        } else if stack[n].inlineAsm == InsideAsm && stack[n].openParentheses == 0 {
          stack := stack[n := stack[n].(inlineAsm := EndAsm)];
        }
      }
    }

    method PushHeads(heads: seq<NamespaceHead>)
      modifies `stack
      ensures stack == PushNamespaces(old(stack), heads)
    {
      for i := 0 to |heads|
        invariant PushNamespaces(old(stack), heads) == PushNamespaces(stack, heads[i..])
      {
        stack := stack + [NewBlock(Namespace(heads[i].name), heads[i].braced)];
      }
    }

    method ConsumeToken(token: Token)
      modifies `stack
      ensures stack == Consume(old(stack), token)
    {
      match token {
        case OpenBrace(asm) =>
          if !SeenOpenBrace(stack) {
            stack := WithTop(stack, stack[|stack| - 1].(seenOpenBrace := true));
          } else {
            stack := stack + [NewBlock(Plain, true)];
            if asm {
              stack := WithTop(stack, stack[|stack| - 1].(inlineAsm := BlockAsm));
            }
          }
        case CloseBrace =>
          if stack != [] {
            stack := stack[..|stack| - 1];
          }
        case _ =>
          if !SeenOpenBrace(stack) {
            stack := stack[..|stack| - 1];
          }
      }
    }

    /** Consumes what is left of the line. */
    method ConsumeTokens(tokens: seq<Token>)
      modifies `stack
      ensures stack == ConsumeAll(old(stack), tokens)
    {
      hide Consume;
      for i := 0 to |tokens|
        invariant ConsumeAll(old(stack), tokens) == ConsumeAll(stack, tokens[i..])
      {
        ConsumeToken(tokens[i]);
      }
    }

    /** A class or struct, unless it is among the parameters of a function. */
    method PushClassHead(head: Option<ClassHead>)
      modifies `stack
      ensures stack == PushClass(old(stack), head)
    {
      if head.Some? && (stack == [] || stack[|stack| - 1].openParentheses == 0) {
        var access := if head.value.isStruct then Public else Private;
        stack := stack + [NewBlock(Class(head.value.name, access, false), false)];
      }
    }

    method NoteClass(code: Code)
      modifies `stack
      ensures stack == SetAccess(NoteBase(old(stack), code.bareColon), code.access)
    {
      if !SeenOpenBrace(stack) {
        var top := stack[|stack| - 1];
        if top.kind.Class? && code.bareColon {
          stack := WithTop(stack, top.(kind := top.kind.(derived := true)));
        }
      }
      if stack != [] && stack[|stack| - 1].kind.Class? && code.access.Some? {
        var top := stack[|stack| - 1];
        stack := WithTop(stack, top.(kind := top.kind.(access := code.access.value)));
      }
    }

    /** One line: the directive first, then the code. */
    method Update(line: Line)
      modifies this
      ensures Value() == Step(old(Value()), line)
    {
      hide PushNamespaces, ConsumeAll, Preprocess, Counted, PushClass, NoteBase, SetAccess;
      UpdatePreprocessor(line.directive);
      CountInnermost(line.code);
      PushHeads(line.code.namespaces);
      PushClassHead(line.code.classHead);
      NoteClass(line.code);
      ConsumeTokens(line.code.tokens);
    }

    /** The lines of a file in turn. From the start of a file, the stack outside dead branches is that of the
        text without them. */
    method Process(lines: seq<Line>)
      modifies this
      ensures Value() == Run(old(Value()), lines)
      ensures old(Value()) == State([], []) && true !in FollowAll([], lines) ==> stack == ReadAll([], Kept([], lines))
    {
      hide Step, ReadAll, Kept, FollowAll;
      for i := 0 to |lines|
        invariant Run(old(Value()), lines) == Run(Value(), lines[i..])
      {
        Update(lines[i]);
      }
      if old(Value()) == State([], []) && true !in FollowAll([], lines) {
        DeadBranchesDeleted(lines);
      }
    }
  }
}
