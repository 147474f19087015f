/** The validator's rules as pure functions: for each node, the sequence of "broken MIR"
    records that the pass hands to `delay_span_bug`, in the order the pass records them. */
module ValidateRules {
  import opened Mir

  /** What a record says is broken (the message text of each `fail` call). */
  datatype BrokenMir =
    | InvalidBasicBlock(bb: BasicBlock)
    | SwitchIntArity(valueCount: nat, targetCount: nat)
    | OverlappingAssign
    | NonCallable(calleeTy: Ty)
    | NonBoolCondition(condTy: Ty)
    | NonCopyOperand(operandTy: Ty)

  datatype Diagnostic = Diagnostic(location: Location, kind: BrokenMir)

  predicate ValidBlock(body: Body, bb: BasicBlock) {
    bb < |body.basicBlocks|
  }

  /** `check_bb`: a jump to `bb` is reported iff `bb` names no block of the body. */
  function BbDiagnostics(body: Body, location: Location, bb: BasicBlock): (r: seq<Diagnostic>)
    ensures r == [] <==> ValidBlock(body, bb)
    ensures r != [] ==> r == [Diagnostic(location, InvalidBasicBlock(bb))]
  {
    if Get(body.basicBlocks, bb).None? then [Diagnostic(location, InvalidBasicBlock(bb))] else []
  }

  /** `for target in targets { check_bb(..) }`: one record per target that names no block. */
  function TargetsDiagnostics(body: Body, location: Location, targets: seq<BasicBlock>): (r: seq<Diagnostic>)
    ensures |r| <= |targets|
    ensures forall d | d in r ::
      d.location == location && d.kind.InvalidBasicBlock? &&
      d.kind.bb in targets && !ValidBlock(body, d.kind.bb)
    ensures forall t | t in targets && !ValidBlock(body, t) ::
      Diagnostic(location, InvalidBasicBlock(t)) in r
  {
    if targets == [] then []
    else BbDiagnostics(body, location, targets[0]) + TargetsDiagnostics(body, location, targets[1..])
  }

  /** `visit_operand`: `Operand::Copy` is only for places of a `Copy` type. */
  function OperandDiagnostics(env: TypeEnv, operand: Operand, location: Location): (r: seq<Diagnostic>)
    ensures r != [] <==> operand.Copy? && !env.isCopy(env.placeTy(operand.place))
    ensures r != [] ==> r == [Diagnostic(location, NonCopyOperand(env.placeTy(operand.place)))]
  {
    match operand
    case Copy(place) =>
      var ty := env.placeTy(place);
      if !env.isCopy(ty) then [Diagnostic(location, NonCopyOperand(ty))] else []
    case _ => []
  }

  /** An assignment whose right-hand side copies or moves its own destination place. */
  predicate SelfAssignment(statement: Statement) {
    && statement.Assign?
    && statement.rvalue.Use?
    && !statement.rvalue.operand.Constant?
    && statement.rvalue.operand.place == statement.dest
  }

  /** `visit_statement`: the two sides of `dest = Use(Copy(src) | Move(src))` must differ. */
  function StatementDiagnostics(statement: Statement, location: Location): (r: seq<Diagnostic>)
    ensures r != [] <==> SelfAssignment(statement)
    ensures r != [] ==> r == [Diagnostic(location, OverlappingAssign)]
  {
    match statement
    case Assign(dest, rvalue) =>
      (match rvalue
       case Use(Copy(src)) => if dest == src then [Diagnostic(location, OverlappingAssign)] else []
       case Use(Move(src)) => if dest == src then [Diagnostic(location, OverlappingAssign)] else []
       case _ => [])
    case _ => []
  }

  /** `if let Some(bb) = opt { check_bb(bb) }`: a record only for a present block that the
      body does not have. */
  function OptionalBbDiagnostics(body: Body, location: Location, opt: Option<BasicBlock>): (r: seq<Diagnostic>)
    ensures r == [] <==> opt.None? || ValidBlock(body, opt.value)
    ensures r != [] ==> r == [Diagnostic(location, InvalidBasicBlock(opt.value))]
  {
    match opt
    case Some(bb) => BbDiagnostics(body, location, bb)
    case None => []
  }

  /** `if let Some((_, target)) = destination { check_bb(target) }`: the return target of a
      call is checked only when the call returns. */
  function ReturnDiagnostics(body: Body, location: Location, destination: Option<(Place, BasicBlock)>): (r: seq<Diagnostic>)
    ensures r == [] <==> destination.None? || ValidBlock(body, destination.value.1)
    ensures r != [] ==> r == [Diagnostic(location, InvalidBasicBlock(destination.value.1))]
  {
    match destination
    case Some((_, target)) => BbDiagnostics(body, location, target)
    case None => []
  }

  /** The `SwitchInt` arity check: one more target than values. */
  function ArityDiagnostics(values: seq<nat>, targets: seq<BasicBlock>, location: Location): (r: seq<Diagnostic>)
    ensures r == [] <==> |targets| == |values| + 1
    ensures r != [] ==> r == [Diagnostic(location, SwitchIntArity(|values|, |targets|))]
  {
    if |targets| != |values| + 1 then [Diagnostic(location, SwitchIntArity(|values|, |targets|))] else []
  }

  /** The `Call` callee check: a function pointer or a function item. */
  function CalleeDiagnostics(env: TypeEnv, func: Operand, location: Location): (r: seq<Diagnostic>)
    ensures r == [] <==> OperandTy(env, func).FnPtr? || OperandTy(env, func).FnDef?
    ensures r != [] ==> r == [Diagnostic(location, NonCallable(OperandTy(env, func)))]
  {
    var funcTy := OperandTy(env, func);
    match funcTy
    case FnPtr(_) => []
    case FnDef(_) => []
    case _ => [Diagnostic(location, NonCallable(funcTy))]
  }

  /** The `Assert` condition check: a condition of type `bool`. */
  function ConditionDiagnostics(env: TypeEnv, cond: Operand, location: Location): (r: seq<Diagnostic>)
    ensures r == [] <==> OperandTy(env, cond) == Bool
    ensures r != [] ==> r == [Diagnostic(location, NonBoolCondition(OperandTy(env, cond)))]
  {
    var condTy := OperandTy(env, cond);
    if condTy != Bool then [Diagnostic(location, NonBoolCondition(condTy))] else []
  }

  /** `visit_terminator`, one arm per terminator kind. */
  function TerminatorDiagnostics(body: Body, env: TypeEnv, terminator: Terminator, location: Location): (r: seq<Diagnostic>)
    ensures forall d | d in r :: d.location == location
  {
    match terminator
    case Goto(target) => BbDiagnostics(body, location, target)
    case SwitchInt(_, _, values, targets) =>
      ArityDiagnostics(values, targets, location) + TargetsDiagnostics(body, location, targets)
    case Drop(_, target, unwind) =>
      BbDiagnostics(body, location, target) + OptionalBbDiagnostics(body, location, unwind)
    case DropAndReplace(_, _, target, unwind) =>
      BbDiagnostics(body, location, target) + OptionalBbDiagnostics(body, location, unwind)
    case Call(func, _, destination, cleanup, _) =>
      CalleeDiagnostics(env, func, location)
      + ReturnDiagnostics(body, location, destination)
      + OptionalBbDiagnostics(body, location, cleanup)
    case Assert(cond, _, target, cleanup) =>
      ConditionDiagnostics(env, cond, location)
      + BbDiagnostics(body, location, target)
      + OptionalBbDiagnostics(body, location, cleanup)
    case Yield(_, resume, _, drop) =>
      BbDiagnostics(body, location, resume) + OptionalBbDiagnostics(body, location, drop)
    case FalseEdge(realTarget, imaginaryTarget) =>
      BbDiagnostics(body, location, realTarget) + BbDiagnostics(body, location, imaginaryTarget)
    case FalseUnwind(realTarget, unwind) =>
      BbDiagnostics(body, location, realTarget) + OptionalBbDiagnostics(body, location, unwind)
    case InlineAsm(destination) => OptionalBbDiagnostics(body, location, destination)
    case Resume => []
    case Abort => []
    case Return => []
    case Unreachable => []
    case GeneratorDrop => []
  }

  /** The records of the first `n` statements of block `bb`, in statement order: each lies
      in the block, at one of those statements. */
  function StatementsDiagnostics(bb: BasicBlock, statements: seq<Statement>, n: nat): (r: seq<Diagnostic>)
    requires n <= |statements|
    ensures forall d | d in r :: d.location.block == bb && d.location.statementIndex < n
  {
    if n == 0 then []
    else StatementsDiagnostics(bb, statements, n - 1) + StatementDiagnostics(statements[n - 1], Location(bb, n - 1))
  }

  /** The records of block `bb`: its statements in order, then its terminator, which sits at
      the location just past the last statement. */
  function BlockDiagnostics(body: Body, env: TypeEnv, bb: BasicBlock): (r: seq<Diagnostic>)
    requires ValidBlock(body, bb)
    ensures forall d | d in r :: d.location.block == bb
  {
    var data := body.basicBlocks[bb];
    StatementsDiagnostics(bb, data.statements, |data.statements|)
    + TerminatorDiagnostics(body, env, data.terminator, Location(bb, |data.statements|))
  }

  /** The concatenation of `logs`, in order. */
  function Flatten(logs: seq<seq<Diagnostic>>): seq<Diagnostic> {
    if logs == [] then [] else Flatten(logs[..|logs| - 1]) + logs[|logs| - 1]
  }

  /** Each block's records, indexed by block id. */
  function BlockLogs(body: Body, env: TypeEnv): seq<seq<Diagnostic>> {
    seq(|body.basicBlocks|, bb requires 0 <= bb < |body.basicBlocks| => BlockDiagnostics(body, env, bb))
  }

  /** Records drawn from logs about blocks below `n` are about blocks below `n`. */
  lemma {:induction false} FlattenBelow(logs: seq<seq<Diagnostic>>, n: nat)
    requires forall k, x | 0 <= k < |logs| && x in logs[k] :: x.location.block < n
    ensures forall x | x in Flatten(logs) :: x.location.block < n
    decreases |logs|
  {
    if logs != [] {
      FlattenBelow(logs[..|logs| - 1], n);
    }
  }

  /** The whole log of one validation of `body`: every block's records, in storage order.
      Every record is about a block the body has. */
  function BodyDiagnostics(body: Body, env: TypeEnv): (r: seq<Diagnostic>)
    ensures forall d | d in r :: ValidBlock(body, d.location.block)
  {
    var logs := BlockLogs(body, env);
    assert forall k, x | 0 <= k < |logs| && x in logs[k] :: x.location.block < |body.basicBlocks| by {
      forall k, x | 0 <= k < |logs| && x in logs[k] ensures x.location.block < |body.basicBlocks| {
        assert logs[k] == BlockDiagnostics(body, env, k);
      }
    }
    FlattenBelow(logs, |body.basicBlocks|);
    Flatten(logs)
  }
}
