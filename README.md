# MIR validator model

This project models rustc's MIR validation pass (`Validator`, in
`src/librustc_mir/transform/validate.rs`) and proves what the pass reports.

The pass takes one function body in MIR, the compiler's mid-level representation: a table of
basic blocks, each a list of statements closed by a terminator. It walks the blocks in storage
order, each block's statements in order, then its terminator. Every broken invariant it meets
is reported through `fail`. `fail` hands a "broken MIR" bug to the session's diagnostic handler
with `delay_span_bug`: the bug is recorded now and reported later. The rules are:

- every basic block a terminator jumps to must exist (`check_bb`);
- a `SwitchInt` has exactly one more target than values;
- an assignment `dest = Use(Copy(src))` or `dest = Use(Move(src))` must not have `dest == src`
  (rustc's derived equality of places, every part of every projection step included);
- a `Call` callee has a function-pointer or function-item type;
- an `Assert` condition has type `bool`;
- a `Copy` operand has a `Copy` type (`visit_operand`).

Layout:

- `mir.dfy` (module `Mir`): the MIR fragment the pass reads. A body is a `seq` of blocks; a
  block id is a `nat`. Places are compared with the derived equality rustc uses, every part of
  every projection step included: a field step carries the field's type and a downcast step
  the variant's name. `TypeEnv` supplies the two type queries (`place.ty` and
  `is_copy_modulo_regions`) as uninterpreted functions.
- `rules.dfy` (module `ValidateRules`): each rule as a pure function. It returns the records
  the rule appends, `Diagnostic(location, kind)`, in the order the pass appends them. The whole
  body's log is `BodyDiagnostics`.
- `traversal.dfy` (module `ValidateTraversal`): facts about the walk over the blocks. The log
  is the concatenation of the per-block logs, and it is ordered by location.
- `properties.dfy` (module `ValidateProperties`): the meaning of the log.
  - Each terminator's records are its shape check followed by one range check per successor,
    in field order.
  - A record is in the log iff it names a rule that is actually broken at a location of the
    body.
  - The log is empty iff the body is well-formed.
- `validate.dfy` (module `Validate`): the pass itself, as imperative code.
  - `DiagnosticHandler` is the session's handler. Its `delayed` field holds the delayed bugs.
  - `TypeChecker` is the visitor. Each `Visit*`/`Check*` method is proved to append exactly
    what the matching pure rule describes.
  - `RunPass` is `Validator::run_pass`. It is proved to append `BodyDiagnostics`, which is
    empty iff the body is well-formed and holds exactly the violations, in storage order.

`visit_statement` and `visit_terminator` do not call `super_statement`/`super_terminator`, so
the walk never descends into a statement's or a terminator's operands. As written, the
`Operand::Copy` rule of `visit_operand` is therefore never reached from `visit_body`. The model
follows the code:
- `TypeChecker.VisitOperand` and `OperandDiagnostics` state the rule on their own;
- no statement or terminator check calls them;
- `CopyRuleNotReached` proves that no `NonCopyOperand` record can appear in a body's log.

## Model

| member | source | states |
|---|---|---|
| `Mir.Get` | src/librustc_mir/transform/validate.rs:53 | `basic_blocks().get(bb)` is `Some` exactly when `bb` is in range, and then holds that block |
| `ValidateRules.BbDiagnostics` | src/librustc_mir/transform/validate.rs:52-56 | `check_bb` appends nothing iff `bb` indexes a block of the body; otherwise exactly one invalid-block record for `bb` at the location |
| `ValidateRules.TargetsDiagnostics` | src/librustc_mir/transform/validate.rs:108-110 | checking a list of targets yields at most as many records as targets; every record names a target of the list that is out of range; every out-of-range target has its record (the exact count, one per position, is `TargetsDiagnosticsCount`) |
| `ValidateRules.OperandDiagnostics` | src/librustc_mir/transform/validate.rs:60-72 | an operand yields a record iff it is `Copy(place)` and the place's type is not `Copy`, and the record then carries that type; `Move` and constants never yield one |
| `ValidateRules.StatementDiagnostics` | src/librustc_mir/transform/validate.rs:74-90 | a statement yields a record iff it assigns `Use(Copy(p))` or `Use(Move(p))` to `p` itself, and then exactly one overlapping-assignment record; any other rvalue or statement kind yields none |
| `Mir.OperandTy` | src/librustc_mir/transform/validate.rs:125 | `Operand::ty`, as used for the callee (line 125) and the assert condition (line 141): a `Copy` or `Move` operand has its place's type, a constant its own type |
| `ValidateRules.OptionalBbDiagnostics` | src/librustc_mir/transform/validate.rs:114-116 | each `if let Some(bb) = .. { check_bb(bb) }` arm (also lines 136-137, 152-153, 158-160, 168-170, 173-175): a record only for a present block that the body does not have, and then exactly one invalid-block record for it |
| `ValidateRules.ReturnDiagnostics` | src/librustc_mir/transform/validate.rs:133-135 | the return target of a `Call` is checked only when the call has a destination: a record iff the destination is present and its block does not exist, and then exactly one |
| `ValidateRules.ArityDiagnostics` | src/librustc_mir/transform/validate.rs:98-107 | no record iff `targets.len() == values.len() + 1`, otherwise exactly one arity record carrying both lengths |
| `ValidateRules.CalleeDiagnostics` | src/librustc_mir/transform/validate.rs:125-132 | no record iff the callee's type is `FnPtr` or `FnDef`, otherwise exactly one non-callable record carrying that type |
| `ValidateRules.ConditionDiagnostics` | src/librustc_mir/transform/validate.rs:141-150 | no record iff the condition's type is `bool`, otherwise exactly one non-boolean record carrying that type |
| `ValidateRules.TerminatorDiagnostics` | src/librustc_mir/transform/validate.rs:92-184 | every record of a terminator carries the terminator's location |
| `ValidateRules.StatementsDiagnostics` | src/librustc_mir/transform/validate.rs:74-90 | every record of a block's first `n` statements lies in that block, at one of those statements |
| `ValidateRules.BlockDiagnostics` | src/librustc_mir/transform/validate.rs:74-184 | every record of a block's walk lies in that block |
| `ValidateRules.BodyDiagnostics` | src/librustc_mir/transform/validate.rs:23 | the log of `visit_body`: the blocks' logs concatenated in storage order; every record is about a block the body has |
| `ValidateProperties.ShapeDiagnostics` | src/librustc_mir/transform/validate.rs:97-150 | the arity, callee and condition checks yield nothing iff the terminator's shape invariant holds, otherwise one record, and that record describes exactly the broken shape invariant |
| `ValidateProperties.TargetsDiagnosticsAppend` | src/librustc_mir/transform/validate.rs:108-110 | checking one more target appends exactly that target's `check_bb` records |
| `ValidateProperties.TargetsDiagnosticsCount` | src/librustc_mir/transform/validate.rs:108-110 | the number of records equals the number of target positions that name no block |
| `ValidateProperties.TerminatorDiagnosticsSplit` | src/librustc_mir/transform/validate.rs:92-184 | no check of a terminator short-circuits another: its records are the shape-check record (if any) followed by one range check of every successor field, in field order, optional ones only when present |
| `ValidateProperties.TerminatorDiagnosticsExact` | src/librustc_mir/transform/validate.rs:92-184 | a record is among a terminator's records iff it is at the terminator's location and describes a broken shape invariant or a successor that names no block |
| `ValidateProperties.TerminatorDiagnosticsCount` | src/librustc_mir/transform/validate.rs:92-184 | a terminator yields one record if its shape check fails, plus one per successor position that names no block |
| `ValidateProperties.TerminatorDiagnosticsEmpty` | src/librustc_mir/transform/validate.rs:177-182 | a terminator yields nothing iff its shape holds and all its successors exist; `Resume`, `Abort`, `Return`, `Unreachable` and `GeneratorDrop` never yield anything |
| `ValidateProperties.SwitchIntDiagnostics` | src/librustc_mir/transform/validate.rs:97-111 | `SwitchInt` gets an arity record iff `targets.len() != values.len() + 1`; its record count is that record plus one per invalid target; every invalid target is reported even when the arity is wrong |
| `ValidateProperties.CallDiagnostics` | src/librustc_mir/transform/validate.rs:124-139 | `Call` gets a non-callable record iff the callee type is neither `FnPtr` nor `FnDef`; the return target and the cleanup block are range-checked only when present, independently of the callee check; no other block is reported |
| `ValidateProperties.AssertDiagnostics` | src/librustc_mir/transform/validate.rs:140-155 | `Assert` gets a non-boolean record iff the condition type is not `bool`; the target is always range-checked, the cleanup block only when present; no other block is reported |
| `ValidateProperties.BlockDiagnosticsHas` | src/librustc_mir/transform/validate.rs:74-184 | a record is in a block's log iff it lies in that block and describes a rule broken there |
| `ValidateProperties.StatementsDiagnosticsExact` | src/librustc_mir/transform/validate.rs:74-90 | a record is among a block's first `n` statement records iff it is an overlapping-assignment record at one of those statements and that statement is a self-assignment |
| `ValidateProperties.StatementsDiagnosticsCount` | src/librustc_mir/transform/validate.rs:74-90 | the number of statement records equals the number of self-assigning statements: exactly one record each, no duplicates |
| `ValidateProperties.BlockDiagnosticsCount` | src/librustc_mir/transform/validate.rs:74-184 | a block gets exactly one record per self-assignment, one if its terminator's shape check fails, and one per successor position that names no block |
| `ValidateProperties.BodyDiagnosticsCount` | src/librustc_mir/transform/validate.rs:20-24 | the body's log has exactly as many records as there are broken rule instances, summed over the blocks |
| `ValidateProperties.FieldTypeDistinguishesPlaces` | src/librustc_mir/transform/validate.rs:80 | an example of the place equality used for `dest == src`: assigning `_1.0` from an `_1.0` whose field projection carries another type is no self-assignment and gets no record |
| `ValidateProperties.BodyDiagnosticsExact` | src/librustc_mir/transform/validate.rs:20-24 | in the model, validation never stops early and never reports a non-violation: a record is in the body's log iff it describes a broken rule at an existing statement or terminator (the crashes of the type queries are left out, see below) |
| `ValidateProperties.BodyDiagnosticsEmptyIff` | src/librustc_mir/transform/validate.rs:20-24 | the log is empty iff every block is well-formed: no self-assignment, every successor exists, every switch arity, callee type and assert-condition type is right |
| `ValidateProperties.NonEmptyLogHasBrokenBlock` | src/librustc_mir/transform/validate.rs:20-24 | a non-empty log points at a block that breaks a rule |
| `ValidateProperties.BrokenBodyHasRecord` | src/librustc_mir/transform/validate.rs:20-24 | a body that breaks a rule gets a record describing that break |
| `ValidateProperties.CopyRuleNotReached` | src/librustc_mir/transform/validate.rs:60-72 | as written, no `Operand::Copy` record ever appears in a body's log |
| `ValidateTraversal.StatementsDiagnosticsOrdered` | src/librustc_mir/transform/validate.rs:74-90 | a block's statement records come in statement order |
| `ValidateTraversal.BlockDiagnosticsOrdered` | src/librustc_mir/transform/validate.rs:74-184 | a block's records come in statement order, then the terminator's |
| `ValidateTraversal.BodyDiagnosticsHas` | src/librustc_mir/transform/validate.rs:23 | a record is in the body's log iff its block exists and the record is in that block's log |
| `ValidateTraversal.BodyDiagnosticsOrdered` | src/librustc_mir/transform/validate.rs:23 | the body's log is ordered by location: blocks in storage order, statements before the terminator |
| `Validate.DiagnosticHandler.DelaySpanBug` | src/librustc_mir/transform/validate.rs:40-49 | a delayed bug is appended to the handler's log and nothing else changes |
| `Validate.TypeChecker.constructor` | src/librustc_mir/transform/validate.rs:23 | the checker holds the body, its type queries and the handler it reports to |
| `Validate.TypeChecker.Fail` | src/librustc_mir/transform/validate.rs:36-50 | `fail` appends exactly one record, at the given location, to the handler |
| `Validate.TypeChecker.CheckBb` | src/librustc_mir/transform/validate.rs:52-56 | appends exactly `BbDiagnostics` |
| `Validate.TypeChecker.CheckOptionalBb` | src/librustc_mir/transform/validate.rs:114-116 | `if let Some(bb)` then `check_bb`: appends that block's check only when present |
| `Validate.TypeChecker.VisitOperand` | src/librustc_mir/transform/validate.rs:60-72 | appends exactly `OperandDiagnostics` |
| `Validate.TypeChecker.VisitStatement` | src/librustc_mir/transform/validate.rs:74-90 | appends exactly `StatementDiagnostics` |
| `Validate.TypeChecker.VisitSwitchInt` | src/librustc_mir/transform/validate.rs:97-111 | appends the arity record when the arity is wrong, then the loop over targets appends each target's `check_bb` in order |
| `Validate.TypeChecker.VisitCall` | src/librustc_mir/transform/validate.rs:124-139 | appends the callee record when the callee is not callable, then the return target's and the cleanup block's checks when present |
| `Validate.TypeChecker.VisitAssert` | src/librustc_mir/transform/validate.rs:140-155 | appends the condition record when the condition is not `bool`, then the target's and the cleanup block's checks |
| `Validate.TypeChecker.VisitTerminator` | src/librustc_mir/transform/validate.rs:92-184 | appends exactly `TerminatorDiagnostics` for every one of the fifteen terminator kinds |
| `Validate.TypeChecker.VisitBasicBlockData` | src/librustc_mir/transform/validate.rs:74-184 | appends each statement's records at its index, then the terminator's at the index past the last statement: exactly `BlockDiagnostics` |
| `Validate.TypeChecker.VisitBody` | src/librustc_mir/transform/validate.rs:23 | visits every block once, in storage order, and appends exactly `BodyDiagnostics` |
| `Validate.RunPass` | src/librustc_mir/transform/validate.rs:20-24 | in the model, one validation runs to the end and appends exactly the body's violations, in location order, and appends nothing iff the body is well-formed (the crashes of the type queries are left out, see below) |

## Left out

- Diagnostic machinery: `delay_span_bug` is modelled as appending a record to a sequence. The escalation of delayed bugs, the message text (`format!`, with the `DefId` and the `when` string) and the span are not modelled.
- `fail` and `visit_operand` look up `body.source_info(location)` for a span. That lookup would panic on a location outside the body. Spans are not modelled, so this panic is not modelled either; the pass only ever passes locations it visits.
- The type system is foreign code: `place.ty`, `Operand::ty`, `is_copy_modulo_regions`, `tcx.param_env`, `tcx.types.bool` and `ty.kind`. They are reduced to the `TypeEnv` functions and the `Ty` kinds the pass distinguishes. `Operand::ty` for a constant is the constant's recorded type.
- Crashes of the type queries are not modelled. `place.ty` and `Operand::ty` (used at lines 125 and 141 on every `Call` and `Assert`) panic on a place that names no declared local, or that projects a type that cannot be projected (a `Deref` of a non-pointer, an index or subslice of a non-array, a downcast of a non-ADT). Such a panic ends compilation with an internal compiler error: no delayed bug is recorded and later blocks are not checked. `TypeEnv.placeTy` is total, so the model records the violations and walks on; "never stops early" is a statement about the model only.
- The generic `Visitor`/`super_*` walk from `rustc_middle::mir::visit` is not part of this model. Only the block, statement and terminator order that `visit_body` drives is modelled (`VisitBody`, `VisitBasicBlockData`), with statement `i` at location `(bb, i)` and the terminator at `(bb, number of statements)`. In rustc a block's terminator is an `Option`, visited only when set; the model gives every block a terminator, since MIR handed to passes always has its terminators set. The descent into local declarations, scopes, debug info, user type annotations and constants reaches no overridden method and reports nothing, so it is left out.
- `MirPass`/`MirSource` plumbing and the `DefId` lookup only decorate messages. The body is passed as an immutable value; the pass only reads it, so "never modifies the body" holds by construction.
- Operator kinds, cast kinds, aggregate kinds, inline-assembly operands, the `Assert` message and the `fromHirCall` flag are carried as data or dropped, because no rule inspects them.
- Parallel validation of several bodies in the host compiler is not part of this code.
