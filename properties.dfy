/** What the validator's log means. Each terminator's records are its shape check followed by
    a range check of every successor it names; a body's log holds exactly one record per
    violated rule instance, in storage order, and is empty exactly for a well-formed body. */
module ValidateProperties {
  import opened Mir
  import opened ValidateRules
  import opened ValidateTraversal

  function OptionToSeq(opt: Option<BasicBlock>): seq<BasicBlock> {
    match opt
    case Some(bb) => [bb]
    case None => []
  }

  /** The successor ids a terminator names, in field order; optional ones only when present. */
  function Successors(terminator: Terminator): seq<BasicBlock> {
    match terminator
    case Goto(target) => [target]
    case SwitchInt(_, _, _, targets) => targets
    case Drop(_, target, unwind) => [target] + OptionToSeq(unwind)
    case DropAndReplace(_, _, target, unwind) => [target] + OptionToSeq(unwind)
    case Call(_, _, destination, cleanup, _) =>
      (match destination
       case Some((_, target)) => [target]
       case None => [])
      + OptionToSeq(cleanup)
    case Assert(_, _, target, cleanup) => [target] + OptionToSeq(cleanup)
    case Yield(_, resume, _, drop) => [resume] + OptionToSeq(drop)
    case FalseEdge(realTarget, imaginaryTarget) => [realTarget, imaginaryTarget]
    case FalseUnwind(realTarget, unwind) => [realTarget] + OptionToSeq(unwind)
    case InlineAsm(destination) => OptionToSeq(destination)
    case Resume => []
    case Abort => []
    case Return => []
    case Unreachable => []
    case GeneratorDrop => []
  }

  /** The typing and arity invariants on terminators: one more switch target than values, a
      callee of function-pointer or function-item type, a boolean assert condition. */
  predicate ShapeOk(env: TypeEnv, terminator: Terminator) {
    match terminator
    case SwitchInt(_, _, values, targets) => |targets| == |values| + 1
    case Call(func, _, _, _, _) => OperandTy(env, func).FnPtr? || OperandTy(env, func).FnDef?
    case Assert(cond, _, _, _) => OperandTy(env, cond) == Bool
    case _ => true
  }

  /** `kind` correctly describes a broken shape invariant of `terminator`. */
  predicate ShapeViolation(env: TypeEnv, terminator: Terminator, kind: BrokenMir) {
    match kind
    case SwitchIntArity(valueCount, targetCount) =>
      terminator.SwitchInt? && valueCount == |terminator.values| &&
      targetCount == |terminator.targets| && targetCount != valueCount + 1
    case NonCallable(ty) =>
      terminator.Call? && ty == OperandTy(env, terminator.func) && !(ty.FnPtr? || ty.FnDef?)
    case NonBoolCondition(ty) =>
      terminator.Assert? && ty == OperandTy(env, terminator.cond) && ty != Bool
    case _ => false
  }

  /** The record of the shape check, if it fails: the check of the terminator's own kind. */
  function ShapeDiagnostics(env: TypeEnv, terminator: Terminator, location: Location): (r: seq<Diagnostic>)
    ensures r == [] <==> ShapeOk(env, terminator)
    ensures |r| <= 1
    ensures forall d | d in r :: d.location == location && ShapeViolation(env, terminator, d.kind)
    ensures forall k | ShapeViolation(env, terminator, k) :: Diagnostic(location, k) in r
  {
    match terminator
    case SwitchInt(_, _, values, targets) => ArityDiagnostics(values, targets, location)
    case Call(func, _, _, _, _) => CalleeDiagnostics(env, func, location)
    case Assert(cond, _, _, _) => ConditionDiagnostics(env, cond, location)
    case _ => []
  }

  /** `kind` correctly describes a violation at the terminator `terminator`. */
  predicate TerminatorViolation(body: Body, env: TypeEnv, terminator: Terminator, kind: BrokenMir) {
    || ShapeViolation(env, terminator, kind)
    || (kind.InvalidBasicBlock? && kind.bb in Successors(terminator) && !ValidBlock(body, kind.bb))
  }

  /** The positions of `targets` that name no block. */
  function InvalidIndices(body: Body, targets: seq<BasicBlock>): set<nat> {
    set i: nat | i < |targets| && !ValidBlock(body, targets[i])
  }

  // ---------------------------------------------------------------- successor range checks

  /** Checking one more target appends that target's check: the loop at lines 108-110. */
  lemma {:induction false} TargetsDiagnosticsAppend(body: Body, location: Location, targets: seq<BasicBlock>, t: BasicBlock)
    ensures TargetsDiagnostics(body, location, targets + [t])
         == TargetsDiagnostics(body, location, targets) + BbDiagnostics(body, location, t)
    decreases |targets|
  {
    if targets == [] {
      assert targets + [t] == [t];
    } else {
      assert (targets + [t])[1..] == targets[1..] + [t];
      TargetsDiagnosticsAppend(body, location, targets[1..], t);
    }
  }

  /** One record per target position that names no block. */
  lemma {:induction false} TargetsDiagnosticsCount(body: Body, location: Location, targets: seq<BasicBlock>)
    ensures |TargetsDiagnostics(body, location, targets)| == |InvalidIndices(body, targets)|
    decreases |targets|
  {
    if targets == [] {
      assert InvalidIndices(body, targets) == {};
    } else {
      var prefix, last := targets[..|targets| - 1], targets[|targets| - 1];
      assert targets == prefix + [last];
      TargetsDiagnosticsAppend(body, location, prefix, last);
      TargetsDiagnosticsCount(body, location, prefix);
      InvalidIndicesSnoc(body, prefix, last);
    }
  }

  lemma InvalidIndicesSnoc(body: Body, prefix: seq<BasicBlock>, last: BasicBlock)
    ensures |InvalidIndices(body, prefix + [last])|
         == |InvalidIndices(body, prefix)| + (if ValidBlock(body, last) then 0 else 1)
  {
    var targets := prefix + [last];
    var extra: set<nat> := if ValidBlock(body, last) then {} else {|prefix|};
    forall i: nat ensures i in InvalidIndices(body, targets) <==> i in InvalidIndices(body, prefix) + extra {
      if i < |prefix| {
        assert targets[i] == prefix[i];
      }
    }
    assert InvalidIndices(body, targets) == InvalidIndices(body, prefix) + extra;
    assert |prefix| !in InvalidIndices(body, prefix);
  }

  // ---------------------------------------------------------------- terminators

  lemma TargetsDiagnosticsOption(body: Body, location: Location, opt: Option<BasicBlock>)
    ensures TargetsDiagnostics(body, location, OptionToSeq(opt)) == OptionalBbDiagnostics(body, location, opt)
  {
    if opt.Some? {
      assert OptionToSeq(opt)[1..] == [];
    }
  }

  lemma TargetsDiagnosticsCons(body: Body, location: Location, first: BasicBlock, rest: seq<BasicBlock>)
    ensures TargetsDiagnostics(body, location, [first] + rest)
         == BbDiagnostics(body, location, first) + TargetsDiagnostics(body, location, rest)
  {
    assert ([first] + rest)[1..] == rest;
  }

  lemma TargetsDiagnosticsFirstOption(body: Body, location: Location, first: BasicBlock, opt: Option<BasicBlock>)
    ensures TargetsDiagnostics(body, location, [first] + OptionToSeq(opt))
         == BbDiagnostics(body, location, first) + OptionalBbDiagnostics(body, location, opt)
  {
    TargetsDiagnosticsCons(body, location, first, OptionToSeq(opt));
    TargetsDiagnosticsOption(body, location, opt);
  }

  lemma SplitCallReturning(body: Body, env: TypeEnv, terminator: Terminator, location: Location)
    requires terminator.Call? && terminator.destination.Some?
    ensures TerminatorDiagnostics(body, env, terminator, location)
         == ShapeDiagnostics(env, terminator, location)
          + TargetsDiagnostics(body, location, Successors(terminator))
  {
    TargetsDiagnosticsFirstOption(body, location, terminator.destination.value.1, terminator.cleanup);
  }

  lemma SplitCall(body: Body, env: TypeEnv, terminator: Terminator, location: Location)
    requires terminator.Call?
    ensures TerminatorDiagnostics(body, env, terminator, location)
         == ShapeDiagnostics(env, terminator, location)
          + TargetsDiagnostics(body, location, Successors(terminator))
  {
    if terminator.destination.Some? {
      SplitCallReturning(body, env, terminator, location);
    } else {
      TargetsDiagnosticsOption(body, location, terminator.cleanup);
    }
  }

  lemma SplitDropLike(body: Body, env: TypeEnv, terminator: Terminator, location: Location)
    requires terminator.Drop? || terminator.DropAndReplace? || terminator.FalseUnwind?
    ensures TerminatorDiagnostics(body, env, terminator, location)
         == ShapeDiagnostics(env, terminator, location)
          + TargetsDiagnostics(body, location, Successors(terminator))
  {
    match terminator
    case Drop(_, target, unwind) =>
      TargetsDiagnosticsFirstOption(body, location, target, unwind);
    case DropAndReplace(_, _, target, unwind) =>
      TargetsDiagnosticsFirstOption(body, location, target, unwind);
    case FalseUnwind(realTarget, unwind) =>
      TargetsDiagnosticsFirstOption(body, location, realTarget, unwind);
  }

  lemma SplitAssert(body: Body, env: TypeEnv, terminator: Terminator, location: Location)
    requires terminator.Assert?
    ensures TerminatorDiagnostics(body, env, terminator, location)
         == ShapeDiagnostics(env, terminator, location)
          + TargetsDiagnostics(body, location, Successors(terminator))
  {
    TargetsDiagnosticsFirstOption(body, location, terminator.target, terminator.cleanup);
  }

  lemma SplitYield(body: Body, env: TypeEnv, terminator: Terminator, location: Location)
    requires terminator.Yield?
    ensures TerminatorDiagnostics(body, env, terminator, location)
         == ShapeDiagnostics(env, terminator, location)
          + TargetsDiagnostics(body, location, Successors(terminator))
  {
    TargetsDiagnosticsFirstOption(body, location, terminator.resume, terminator.drop);
  }

  lemma SplitRest(body: Body, env: TypeEnv, terminator: Terminator, location: Location)
    requires !(terminator.Call? || terminator.Drop? || terminator.DropAndReplace? ||
               terminator.FalseUnwind? || terminator.Assert? || terminator.Yield?)
    ensures TerminatorDiagnostics(body, env, terminator, location)
         == ShapeDiagnostics(env, terminator, location)
          + TargetsDiagnostics(body, location, Successors(terminator))
  {
    match terminator
    case Goto(target) =>
      TargetsDiagnosticsCons(body, location, target, []);
    case FalseEdge(realTarget, imaginaryTarget) =>
      TargetsDiagnosticsCons(body, location, imaginaryTarget, []);
      TargetsDiagnosticsCons(body, location, realTarget, [imaginaryTarget]);
    case InlineAsm(destination) =>
      TargetsDiagnosticsOption(body, location, destination);
    case SwitchInt(_, _, _, _) =>
    case Resume =>
    case Abort =>
    case Return =>
    case Unreachable =>
    case GeneratorDrop =>
  }

  /** No check of a terminator short-circuits another: its records are the shape check's
      followed by the range check of every successor it names, in field order. */
  lemma TerminatorDiagnosticsSplit(body: Body, env: TypeEnv, terminator: Terminator, location: Location)
    ensures TerminatorDiagnostics(body, env, terminator, location)
         == ShapeDiagnostics(env, terminator, location)
          + TargetsDiagnostics(body, location, Successors(terminator))
  {
    if terminator.Call? {
      SplitCall(body, env, terminator, location);
    } else if terminator.Drop? || terminator.DropAndReplace? || terminator.FalseUnwind? {
      SplitDropLike(body, env, terminator, location);
    } else if terminator.Assert? {
      SplitAssert(body, env, terminator, location);
    } else if terminator.Yield? {
      SplitYield(body, env, terminator, location);
    } else {
      SplitRest(body, env, terminator, location);
    }
  }

  /** A terminator's records are exactly the violations at its location. */
  lemma TerminatorDiagnosticsExact(body: Body, env: TypeEnv, terminator: Terminator, location: Location)
    ensures forall d :: (d in TerminatorDiagnostics(body, env, terminator, location)
      <==> d.location == location && TerminatorViolation(body, env, terminator, d.kind))
  {
    TerminatorDiagnosticsSplit(body, env, terminator, location);
  }

  /** The number of records of a terminator: one if the shape check fails, plus one per
      successor position that names no block. */
  lemma TerminatorDiagnosticsCount(body: Body, env: TypeEnv, terminator: Terminator, location: Location)
    ensures |TerminatorDiagnostics(body, env, terminator, location)|
         == (if ShapeOk(env, terminator) then 0 else 1) + |InvalidIndices(body, Successors(terminator))|
  {
    TerminatorDiagnosticsSplit(body, env, terminator, location);
    TargetsDiagnosticsCount(body, location, Successors(terminator));
  }

  /** A terminator yields no record iff its shape invariant holds and all its successors exist;
      the five exits without successors never yield one. */
  lemma TerminatorDiagnosticsEmpty(body: Body, env: TypeEnv, terminator: Terminator, location: Location)
    ensures TerminatorDiagnostics(body, env, terminator, location) == []
        <==> ShapeOk(env, terminator) && forall s | s in Successors(terminator) :: ValidBlock(body, s)
    ensures terminator.Resume? || terminator.Abort? || terminator.Return? ||
            terminator.Unreachable? || terminator.GeneratorDrop?
        ==> TerminatorDiagnostics(body, env, terminator, location) == []
  {
    TerminatorDiagnosticsSplit(body, env, terminator, location);
    var targets := TargetsDiagnostics(body, location, Successors(terminator));
    if targets != [] {
      assert targets[0] in targets;
    }
  }

  /** `SwitchInt`: an arity record iff the target count is not the value count plus one, and
      every target is still range-checked. */
  lemma SwitchIntDiagnostics(body: Body, env: TypeEnv, discr: Operand, switchTy: Ty,
                             values: seq<nat>, targets: seq<BasicBlock>, location: Location)
    ensures var r := TerminatorDiagnostics(body, env, SwitchInt(discr, switchTy, values, targets), location);
      && (Diagnostic(location, SwitchIntArity(|values|, |targets|)) in r <==> |targets| != |values| + 1)
      && |r| == (if |targets| != |values| + 1 then 1 else 0) + |InvalidIndices(body, targets)|
      && (forall t | t in targets && !ValidBlock(body, t) :: Diagnostic(location, InvalidBasicBlock(t)) in r)
  {
    TerminatorDiagnosticsCount(body, env, SwitchInt(discr, switchTy, values, targets), location);
  }

  /** `Call`: a non-callable record iff the callee is neither a function pointer nor a function
      item; the destination target and the cleanup block are range-checked when present,
      independently of the callee check and of each other. */
  lemma CallDiagnostics(body: Body, env: TypeEnv, func: Operand, args: seq<Operand>,
                        destination: Option<(Place, BasicBlock)>, cleanup: Option<BasicBlock>,
                        fromHirCall: bool, location: Location)
    ensures var r := TerminatorDiagnostics(body, env, Call(func, args, destination, cleanup, fromHirCall), location);
      var ty := OperandTy(env, func);
      && (Diagnostic(location, NonCallable(ty)) in r <==> !(ty.FnPtr? || ty.FnDef?))
      && (destination.Some? && !ValidBlock(body, destination.value.1) ==>
            Diagnostic(location, InvalidBasicBlock(destination.value.1)) in r)
      && (cleanup.Some? && !ValidBlock(body, cleanup.value) ==>
            Diagnostic(location, InvalidBasicBlock(cleanup.value)) in r)
      && (forall bb :: Diagnostic(location, InvalidBasicBlock(bb)) in r ==>
            !ValidBlock(body, bb) &&
            ((destination.Some? && bb == destination.value.1) || (cleanup.Some? && bb == cleanup.value)))
  {
    TerminatorDiagnosticsExact(body, env, Call(func, args, destination, cleanup, fromHirCall), location);
  }

  /** `Assert`: a non-boolean record iff the condition is not of type `bool`; the target is
      always range-checked and the cleanup block when present. */
  lemma AssertDiagnostics(body: Body, env: TypeEnv, cond: Operand, expected: bool,
                          target: BasicBlock, cleanup: Option<BasicBlock>, location: Location)
    ensures var r := TerminatorDiagnostics(body, env, Assert(cond, expected, target, cleanup), location);
      var ty := OperandTy(env, cond);
      && (Diagnostic(location, NonBoolCondition(ty)) in r <==> ty != Bool)
      && (!ValidBlock(body, target) ==> Diagnostic(location, InvalidBasicBlock(target)) in r)
      && (cleanup.Some? && !ValidBlock(body, cleanup.value) ==>
            Diagnostic(location, InvalidBasicBlock(cleanup.value)) in r)
      && (forall bb :: Diagnostic(location, InvalidBasicBlock(bb)) in r ==>
            !ValidBlock(body, bb) && (bb == target || (cleanup.Some? && bb == cleanup.value)))
  {
    TerminatorDiagnosticsExact(body, env, Assert(cond, expected, target, cleanup), location);
  }

  // ---------------------------------------------------------------- the whole body

  // ---------------------------------------------------------------- record counts

  /** The records of a block's first `n` statements are exactly one overlapping-assignment
      record at each self-assigning statement. */
  lemma {:induction false} StatementsDiagnosticsExact(bb: BasicBlock, statements: seq<Statement>, n: nat)
    requires n <= |statements|
    ensures forall d :: (d in StatementsDiagnostics(bb, statements, n)
      <==> d.kind == OverlappingAssign && d.location.block == bb && d.location.statementIndex < n
           && SelfAssignment(statements[d.location.statementIndex]))
  {
    if n > 0 {
      StatementsDiagnosticsExact(bb, statements, n - 1);
    }
  }

  /** The number of statements among the first `n` that assign a place to itself. */
  function SelfAssignCount(statements: seq<Statement>, n: nat): nat
    requires n <= |statements|
  {
    if n == 0 then 0
    else SelfAssignCount(statements, n - 1) + (if SelfAssignment(statements[n - 1]) then 1 else 0)
  }

  /** Exactly one record per self-assigning statement. */
  lemma {:induction false} StatementsDiagnosticsCount(bb: BasicBlock, statements: seq<Statement>, n: nat)
    requires n <= |statements|
    ensures |StatementsDiagnostics(bb, statements, n)| == SelfAssignCount(statements, n)
  {
    if n > 0 {
      StatementsDiagnosticsCount(bb, statements, n - 1);
      var step := StatementDiagnostics(statements[n - 1], Location(bb, n - 1));
      assert |step| == if SelfAssignment(statements[n - 1]) then 1 else 0;
    }
  }

  /** The number of rule instances broken in block `bb`: its self-assignments, its
      terminator's shape check, and its successor positions that name no block. */
  function BlockViolationCount(body: Body, env: TypeEnv, bb: BasicBlock): nat
    requires ValidBlock(body, bb)
  {
    var data := body.basicBlocks[bb];
    SelfAssignCount(data.statements, |data.statements|)
    + (if ShapeOk(env, data.terminator) then 0 else 1)
    + |InvalidIndices(body, Successors(data.terminator))|
  }

  lemma BlockLogCount(body: Body, env: TypeEnv, bb: BasicBlock)
    requires ValidBlock(body, bb)
    ensures |BlockLogs(body, env)[bb]| == BlockViolationCount(body, env, bb)
  {
    BlockDiagnosticsCount(body, env, bb);
  }

  /** A block gets exactly one record per rule instance broken in it. */
  lemma BlockDiagnosticsCount(body: Body, env: TypeEnv, bb: BasicBlock)
    requires ValidBlock(body, bb)
    ensures |BlockDiagnostics(body, env, bb)| == BlockViolationCount(body, env, bb)
  {
    var data := body.basicBlocks[bb];
    StatementsDiagnosticsCount(bb, data.statements, |data.statements|);
    TerminatorDiagnosticsCount(body, env, data.terminator, Location(bb, |data.statements|));
  }

  /** The number of rule instances broken in the first `n` blocks. */
  function ViolationCount(body: Body, env: TypeEnv, n: nat): nat
    requires n <= |body.basicBlocks|
  {
    if n == 0 then 0 else ViolationCount(body, env, n - 1) + BlockViolationCount(body, env, n - 1)
  }

  lemma {:induction false} BlockLogsPrefixCount(body: Body, env: TypeEnv, n: nat)
    requires n <= |body.basicBlocks|
    ensures |Flatten(BlockLogs(body, env)[..n])| == ViolationCount(body, env, n)
  {
    if n > 0 {
      var logs := BlockLogs(body, env);
      BlockLogsPrefixCount(body, env, n - 1);
      FlattenAppend(logs, n - 1);
      BlockLogCount(body, env, n - 1);
    }
  }

  /** A body's log holds exactly one record per rule instance broken in the body. */
  lemma BodyDiagnosticsCount(body: Body, env: TypeEnv)
    ensures |BodyDiagnostics(body, env)| == ViolationCount(body, env, |body.basicBlocks|)
  {
    var logs := BlockLogs(body, env);
    BlockLogsPrefixCount(body, env, |logs|);
    assert logs[..|logs|] == logs;
  }

  /** Places are compared as rustc compares them: a field projection's type is part of the
      place, so assigning `_1.0` from an `_1.0` typed differently is no self-assignment. */
  lemma FieldTypeDistinguishesPlaces(location: Location, a: Ty, b: Ty)
    requires a != b
    ensures var dest := Place(1, [Field(0, a)]);
      StatementDiagnostics(Assign(dest, Use(Move(Place(1, [Field(0, b)])))), location) == []
  {
  }

  /** `d` correctly describes a broken invariant of `body` at a location that exists. */
  ghost predicate Violation(body: Body, env: TypeEnv, d: Diagnostic) {
    ValidBlock(body, d.location.block) &&
    var data := body.basicBlocks[d.location.block];
    if d.location.statementIndex < |data.statements| then
      d.kind == OverlappingAssign && SelfAssignment(data.statements[d.location.statementIndex])
    else
      d.location.statementIndex == |data.statements| &&
      TerminatorViolation(body, env, data.terminator, d.kind)
  }

  /** The invariants every legal body satisfies. */
  ghost predicate BlockWellFormed(body: Body, env: TypeEnv, data: BasicBlockData) {
    && (forall i | 0 <= i < |data.statements| :: !SelfAssignment(data.statements[i]))
    && (forall s | s in Successors(data.terminator) :: ValidBlock(body, s))
    && ShapeOk(env, data.terminator)
  }

  ghost predicate WellFormed(body: Body, env: TypeEnv) {
    forall b | 0 <= b < |body.basicBlocks| :: BlockWellFormed(body, env, body.basicBlocks[b])
  }

  lemma BlockDiagnosticsHas(body: Body, env: TypeEnv, bb: BasicBlock, d: Diagnostic)
    requires ValidBlock(body, bb)
    ensures d in BlockDiagnostics(body, env, bb) <==> d.location.block == bb && Violation(body, env, d)
  {
    var data := body.basicBlocks[bb];
    StatementsDiagnosticsExact(bb, data.statements, |data.statements|);
    TerminatorDiagnosticsExact(body, env, data.terminator, Location(bb, |data.statements|));
  }

  /** Validation never stops early and never reports a non-violation: a record is in the log
      iff it describes a broken invariant at a location of the body. */
  lemma BodyDiagnosticsExact(body: Body, env: TypeEnv)
    ensures forall d :: d in BodyDiagnostics(body, env) <==> Violation(body, env, d)
  {
    forall d: Diagnostic ensures d in BodyDiagnostics(body, env) <==> Violation(body, env, d) {
      BodyDiagnosticsHas(body, env, d);
      if ValidBlock(body, d.location.block) {
        BlockDiagnosticsHas(body, env, d.location.block, d);
      }
    }
  }

  /** A record in the log points at a block that breaks an invariant. */
  lemma NonEmptyLogHasBrokenBlock(body: Body, env: TypeEnv) returns (bb: BasicBlock)
    requires BodyDiagnostics(body, env) != []
    ensures ValidBlock(body, bb) && !BlockWellFormed(body, env, body.basicBlocks[bb])
  {
    var d := BodyDiagnostics(body, env)[0];
    BodyDiagnosticsExact(body, env);
    assert Violation(body, env, d);
    bb := d.location.block;
  }

  /** A block that breaks an invariant has a record describing the break. */
  lemma BrokenBlockHasViolation(body: Body, env: TypeEnv, bb: BasicBlock) returns (d: Diagnostic)
    requires ValidBlock(body, bb) && !BlockWellFormed(body, env, body.basicBlocks[bb])
    ensures d.location.block == bb && Violation(body, env, d)
  {
    var data := body.basicBlocks[bb];
    var end := Location(bb, |data.statements|);
    if i :| 0 <= i < |data.statements| && SelfAssignment(data.statements[i]) {
      d := Diagnostic(Location(bb, i), OverlappingAssign);
    } else if s :| s in Successors(data.terminator) && !ValidBlock(body, s) {
      d := Diagnostic(end, InvalidBasicBlock(s));
    } else {
      var shape := ShapeDiagnostics(env, data.terminator, end);
      assert shape[0] in shape;
      d := shape[0];
    }
  }

  /** A body that breaks an invariant gets a record describing the break. */
  lemma BrokenBodyHasRecord(body: Body, env: TypeEnv) returns (d: Diagnostic)
    requires !WellFormed(body, env)
    ensures d in BodyDiagnostics(body, env) && Violation(body, env, d)
  {
    var bb :| 0 <= bb < |body.basicBlocks| && !BlockWellFormed(body, env, body.basicBlocks[bb]);
    d := BrokenBlockHasViolation(body, env, bb);
    BodyDiagnosticsExact(body, env);
  }

  /** The log is empty exactly for a well-formed body. */
  lemma BodyDiagnosticsEmptyIff(body: Body, env: TypeEnv)
    ensures BodyDiagnostics(body, env) == [] <==> WellFormed(body, env)
  {
    if BodyDiagnostics(body, env) != [] {
      var bb := NonEmptyLogHasBrokenBlock(body, env);
    }
    if !WellFormed(body, env) {
      var d := BrokenBodyHasRecord(body, env);
    }
  }

  /** As written, the `Operand::Copy` rule never contributes to a body's log: no statement
      or terminator check descends into its operands. */
  lemma CopyRuleNotReached(body: Body, env: TypeEnv)
    ensures forall d | d in BodyDiagnostics(body, env) :: !d.kind.NonCopyOperand?
  {
    BodyDiagnosticsExact(body, env);
  }
}
