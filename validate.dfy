/** The validation pass itself: a `TypeChecker` visitor walks the body block by block, each
    block's statements in order and then its terminator, and reports every broken invariant
    to the session's diagnostic handler as a delayed bug. Each method is proved to append
    exactly the records the pure rules of `ValidateRules` describe. */
module Validate {
  import opened Mir
  import opened ValidateRules
  import opened ValidateTraversal
  import opened ValidateProperties

  /** The session's diagnostic handler, reduced to the delayed bugs it has collected. */
  class DiagnosticHandler {
    var delayed: seq<Diagnostic>

    constructor()
      ensures delayed == []
    {
      delayed := [];
    }

    /** `delay_span_bug`: remember the bug; it is reported only if compilation would
        otherwise succeed. */
    method DelaySpanBug(d: Diagnostic)
      modifies this
      ensures delayed == old(delayed) + [d]
    {
      delayed := delayed + [d];
    }
  }

  /** The visitor state: the body under validation, its type queries and the handler that
      collects the records. The body is only read. */
  class TypeChecker {
    const body: Body
    const env: TypeEnv
    const handler: DiagnosticHandler

    constructor(body: Body, env: TypeEnv, handler: DiagnosticHandler)
      ensures this.body == body && this.env == env && this.handler == handler
    {
      this.body := body;
      this.env := env;
      this.handler := handler;
    }

    /** `fail`: one record at `location`. */
    method Fail(location: Location, kind: BrokenMir)
      modifies handler
      ensures handler.delayed == old(handler.delayed) + [Diagnostic(location, kind)]
    {
      handler.DelaySpanBug(Diagnostic(location, kind));
    }

    /** `check_bb`: report a jump to a block the body does not have. */
    method CheckBb(location: Location, bb: BasicBlock)
      modifies handler
      ensures handler.delayed == old(handler.delayed) + BbDiagnostics(body, location, bb)
    {
      if Get(body.basicBlocks, bb).None? {
        Fail(location, InvalidBasicBlock(bb));
      }
    }

    /** `if let Some(bb) = opt { self.check_bb(location, bb) }`. */
    method CheckOptionalBb(location: Location, opt: Option<BasicBlock>)
      modifies handler
      ensures handler.delayed == old(handler.delayed) + OptionalBbDiagnostics(body, location, opt)
    {
      if opt.Some? {
        CheckBb(location, opt.value);
      }
    }

    /** `visit_operand`. The generic descent into the operand's place and constant that
        follows the check reports nothing, since no other visitor method is overridden. */
    method VisitOperand(operand: Operand, location: Location)
      modifies handler
      ensures handler.delayed == old(handler.delayed) + OperandDiagnostics(env, operand, location)
    {
      if operand.Copy? {
        var ty := env.placeTy(operand.place);
        if !env.isCopy(ty) {
          Fail(location, NonCopyOperand(ty));
        }
      }
    }

    /** `visit_statement`. It does not descend into the statement's operands. */
    method VisitStatement(statement: Statement, location: Location)
      modifies handler
      ensures handler.delayed == old(handler.delayed) + StatementDiagnostics(statement, location)
    {
      if statement.Assign? {
        match statement.rvalue
        case Use(Copy(src)) =>
          if statement.dest == src {
            Fail(location, OverlappingAssign);
          }
        case Use(Move(src)) =>
          if statement.dest == src {
            Fail(location, OverlappingAssign);
          }
        case _ =>
      }
    }

    /** The `SwitchInt` arm: the arity check, then `check_bb` on each target in order. */
    method VisitSwitchInt(values: seq<nat>, targets: seq<BasicBlock>, location: Location)
      modifies handler
      ensures handler.delayed == old(handler.delayed)
        + (ArityDiagnostics(values, targets, location) + TargetsDiagnostics(body, location, targets))
    {
      if |targets| != |values| + 1 {
        Fail(location, SwitchIntArity(|values|, |targets|));
      }
      ghost var start := handler.delayed;
      for i := 0 to |targets|
        invariant handler.delayed == start + TargetsDiagnostics(body, location, targets[..i])
      {
        CheckBb(location, targets[i]);
        TargetsDiagnosticsAppend(body, location, targets[..i], targets[i]);
        assert targets[..i + 1] == targets[..i] + [targets[i]];
        AppendAssoc(start, TargetsDiagnostics(body, location, targets[..i]), BbDiagnostics(body, location, targets[i]));
      }
      assert targets[..|targets|] == targets;
      AppendAssoc(old(handler.delayed), ArityDiagnostics(values, targets, location),
                  TargetsDiagnostics(body, location, targets));
    }

    /** The `Call` arm: the callee must have a function type, then the return target and
        the cleanup target are checked when present. */
    method VisitCall(func: Operand, destination: Option<(Place, BasicBlock)>,
                     cleanup: Option<BasicBlock>, location: Location)
      modifies handler
      ensures handler.delayed == old(handler.delayed)
        + (CalleeDiagnostics(env, func, location)
           + ReturnDiagnostics(body, location, destination)
           + OptionalBbDiagnostics(body, location, cleanup))
    {
      var funcTy := OperandTy(env, func);
      match funcTy {
        case FnPtr(_) =>
        case FnDef(_) =>
        case _ => Fail(location, NonCallable(funcTy));
      }
      ghost var callee := CalleeDiagnostics(env, func, location);
      assert handler.delayed == old(handler.delayed) + callee;
      ghost var afterCallee := handler.delayed;
      if destination.Some? {
        CheckBb(location, destination.value.1);
      }
      ghost var returning := ReturnDiagnostics(body, location, destination);
      assert handler.delayed == afterCallee + returning;
      CheckOptionalBb(location, cleanup);
      AppendAssoc(old(handler.delayed), callee, returning);
      AppendAssoc(old(handler.delayed), callee + returning, OptionalBbDiagnostics(body, location, cleanup));
    }

    /** The `Assert` arm: the condition must be a `bool`, then both targets are checked. */
    method VisitAssert(cond: Operand, target: BasicBlock, cleanup: Option<BasicBlock>, location: Location)
      modifies handler
      ensures handler.delayed == old(handler.delayed)
        + (ConditionDiagnostics(env, cond, location)
           + BbDiagnostics(body, location, target)
           + OptionalBbDiagnostics(body, location, cleanup))
    {
      var condTy := OperandTy(env, cond);
      if condTy != Bool {
        Fail(location, NonBoolCondition(condTy));
      }
      ghost var condition := ConditionDiagnostics(env, cond, location);
      CheckBb(location, target);
      CheckOptionalBb(location, cleanup);
      AppendAssoc(old(handler.delayed), condition, BbDiagnostics(body, location, target));
      AppendAssoc(old(handler.delayed), condition + BbDiagnostics(body, location, target),
                  OptionalBbDiagnostics(body, location, cleanup));
    }

    /** `visit_terminator`. It does not descend into the terminator's operands. */
    method VisitTerminator(terminator: Terminator, location: Location)
      modifies handler
      ensures handler.delayed == old(handler.delayed) + TerminatorDiagnostics(body, env, terminator, location)
    {
      ghost var start := handler.delayed;
      match terminator
      case Goto(target) =>
        CheckBb(location, target);
      case SwitchInt(_, _, values, targets) =>
        VisitSwitchInt(values, targets, location);
      case Drop(_, target, unwind) =>
        CheckBb(location, target);
        CheckOptionalBb(location, unwind);
        AppendAssoc(start, BbDiagnostics(body, location, target), OptionalBbDiagnostics(body, location, unwind));
      case DropAndReplace(_, _, target, unwind) =>
        CheckBb(location, target);
        CheckOptionalBb(location, unwind);
        AppendAssoc(start, BbDiagnostics(body, location, target), OptionalBbDiagnostics(body, location, unwind));
      case Call(func, _, destination, cleanup, _) =>
        VisitCall(func, destination, cleanup, location);
      case Assert(cond, _, target, cleanup) =>
        VisitAssert(cond, target, cleanup, location);
      case Yield(_, resume, _, drop) =>
        CheckBb(location, resume);
        CheckOptionalBb(location, drop);
        AppendAssoc(start, BbDiagnostics(body, location, resume), OptionalBbDiagnostics(body, location, drop));
      case FalseEdge(realTarget, imaginaryTarget) =>
        CheckBb(location, realTarget);
        CheckBb(location, imaginaryTarget);
        AppendAssoc(start, BbDiagnostics(body, location, realTarget), BbDiagnostics(body, location, imaginaryTarget));
      case FalseUnwind(realTarget, unwind) =>
        CheckBb(location, realTarget);
        CheckOptionalBb(location, unwind);
        AppendAssoc(start, BbDiagnostics(body, location, realTarget), OptionalBbDiagnostics(body, location, unwind));
      case InlineAsm(destination) =>
        CheckOptionalBb(location, destination);
      case Resume =>
      case Abort =>
      case Return =>
      case Unreachable =>
      case GeneratorDrop =>
    }

    /** `super_basic_block_data`: each statement at its index, then the terminator at the
        index one past the last statement. */
    method VisitBasicBlockData(bb: BasicBlock, data: BasicBlockData)
      requires ValidBlock(body, bb) && data == body.basicBlocks[bb]
      modifies handler
      ensures handler.delayed == old(handler.delayed) + BlockDiagnostics(body, env, bb)
    {
      ghost var start := handler.delayed;
      var index := 0;
      while index < |data.statements|
        invariant index <= |data.statements|
        invariant handler.delayed == start + StatementsDiagnostics(bb, data.statements, index)
      {
        VisitStatement(data.statements[index], Location(bb, index));
        AppendAssoc(start, StatementsDiagnostics(bb, data.statements, index),
                    StatementDiagnostics(data.statements[index], Location(bb, index)));
        index := index + 1;
      }
      ghost var statementsLog := StatementsDiagnostics(bb, data.statements, index);
      VisitTerminator(data.terminator, Location(bb, index));
      AppendAssoc(start, statementsLog, TerminatorDiagnostics(body, env, data.terminator, Location(bb, index)));
    }

    /** `visit_body`: every block, in storage order. The rest of the generic walk (local
        declarations, scopes, debug info) reaches no overridden method and reports nothing. */
    method VisitBody()
      modifies handler
      ensures handler.delayed == old(handler.delayed) + BodyDiagnostics(body, env)
    {
      ghost var logs := BlockLogs(body, env);
      var bb := 0;
      while bb < |body.basicBlocks|
        invariant bb <= |body.basicBlocks|
        invariant handler.delayed == old(handler.delayed) + Flatten(logs[..bb])
      {
        VisitBasicBlockData(bb, body.basicBlocks[bb]);
        FlattenAppend(logs, bb);
        AppendAssoc(old(handler.delayed), Flatten(logs[..bb]), logs[bb]);
        bb := bb + 1;
      }
      assert logs[..bb] == logs;
    }
  }

  /** `Validator::run_pass`: validate `body` once. The new records are exactly the broken
      invariants of the body, in storage order, and there are none iff the body is well-formed. */
  method RunPass(body: Body, env: TypeEnv, handler: DiagnosticHandler)
    modifies handler
    ensures handler.delayed == old(handler.delayed) + BodyDiagnostics(body, env)
    ensures |handler.delayed| == |old(handler.delayed)| <==> WellFormed(body, env)
    ensures forall d :: d in handler.delayed[|old(handler.delayed)|..] <==> Violation(body, env, d)
    ensures Ordered(handler.delayed[|old(handler.delayed)|..])
  {
    var checker := new TypeChecker(body, env, handler);
    checker.VisitBody();
    BodyDiagnosticsEmptyIff(body, env);
    BodyDiagnosticsExact(body, env);
    BodyDiagnosticsOrdered(body, env);
    assert handler.delayed[|old(handler.delayed)|..] == BodyDiagnostics(body, env);
  }
}
