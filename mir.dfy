/** The fragment of MIR (rustc's mid-level IR) that the validator reads: a body is a table of
    basic blocks addressed by index, each a sequence of statements closed by one terminator.
    Types are reduced to what the validator distinguishes, and the two type queries it makes
    (the type of a place and whether a type is `Copy`) are supplied by a `TypeEnv`. */
module Mir {

  datatype Option<T> = None | Some(value: T)

  /** `IndexVec::get`: the element at `i`, or `None` past the end. */
  function Get<T>(s: seq<T>, i: nat): (r: Option<T>)
    ensures r.Some? <==> i < |s|
    ensures r.Some? ==> r.value == s[i]
  {
    if i < |s| then Some(s[i]) else None
  }

  /** A basic-block id: an index into the body's block table. */
  type BasicBlock = nat

  /** A point in the body: a statement index, or the terminator when the index equals the
      number of statements in the block. */
  datatype Location = Location(block: BasicBlock, statementIndex: nat)

  /** Types, distinguished only by the kinds the validator matches on. */
  datatype Ty = Bool | FnPtr(sig: nat) | FnDef(def: nat) | Other(id: nat)

  /** One projection step. As in rustc, a field projection carries the field's type and a
      downcast carries the variant's name (when it has one) besides its index, so two steps
      are equal only when all of these agree. A name is an interned symbol, here a `nat`. */
  datatype ProjectionElem =
    | Deref
    | Field(field: nat, fieldTy: Ty)
    | Index(indexLocal: nat)
    | ConstantIndex(offset: nat, minLength: nat, fromEnd: bool)
    | Subslice(from: nat, to: nat, fromEnd: bool)
    | Downcast(variantName: Option<nat>, variant: nat)

  /** A local slot and a projection chain. The derived equality of the two, every component
      of every step included, is the `==` the validator applies to places. */
  datatype Place = Place(local: nat, projection: seq<ProjectionElem>)

  datatype Operand = Copy(place: Place) | Move(place: Place) | Constant(ty: Ty)

  /** Right-hand sides of an assignment (operator kinds dropped: nothing inspects them). */
  datatype Rvalue =
    | Use(operand: Operand)
    | Repeat(Operand, count: nat)
    | Ref(Place)
    | AddressOf(Place)
    | Len(Place)
    | Cast(Operand, Ty)
    | BinaryOp(Operand, Operand)
    | CheckedBinaryOp(Operand, Operand)
    | NullaryOp(Ty)
    | UnaryOp(Operand)
    | Discriminant(Place)
    | Aggregate(seq<Operand>)

  /** A statement's kind (its source info is not modelled). */
  datatype Statement =
    | Assign(dest: Place, rvalue: Rvalue)
    | FakeRead(Place)
    | SetDiscriminant(Place, variantIndex: nat)
    | StorageLive(nat)
    | StorageDead(nat)
    | LlvmInlineAsm
    | Retag(Place)
    | AscribeUserType(Place)
    | Nop

  /** A terminator's kind: the fifteen variants the validator matches on. */
  datatype Terminator =
    | Goto(target: BasicBlock)
    | SwitchInt(discr: Operand, switchTy: Ty, values: seq<nat>, targets: seq<BasicBlock>)
    | Resume
    | Abort
    | Return
    | Unreachable
    | Drop(dropped: Place, target: BasicBlock, unwind: Option<BasicBlock>)
    | DropAndReplace(dropped: Place, value: Operand, target: BasicBlock, unwind: Option<BasicBlock>)
    | Call(func: Operand, args: seq<Operand>, destination: Option<(Place, BasicBlock)>,
           cleanup: Option<BasicBlock>, fromHirCall: bool)
    | Assert(cond: Operand, expected: bool, target: BasicBlock, cleanup: Option<BasicBlock>)
    | Yield(value: Operand, resume: BasicBlock, resumeArg: Place, drop: Option<BasicBlock>)
    | GeneratorDrop
    | FalseEdge(realTarget: BasicBlock, imaginaryTarget: BasicBlock)
    | FalseUnwind(realTarget: BasicBlock, unwind: Option<BasicBlock>)
    | InlineAsm(asmDestination: Option<BasicBlock>)

  datatype BasicBlockData = BasicBlockData(statements: seq<Statement>, terminator: Terminator)

  datatype Body = Body(basicBlocks: seq<BasicBlockData>)

  /** The type queries the validator makes: `place.ty(&body.local_decls, tcx)` and
      `ty.is_copy_modulo_regions(tcx, param_env, span)` under the function's parameter
      environment. Both are decided outside the validator. */
  datatype TypeEnv = TypeEnv(placeTy: Place -> Ty, isCopy: Ty -> bool)

  /** `Operand::ty`: a place operand has its place's type, a constant its own. */
  function OperandTy(env: TypeEnv, operand: Operand): (r: Ty)
    ensures operand.Constant? ==> r == operand.ty
    ensures !operand.Constant? ==> r == env.placeTy(operand.place)
  {
    match operand
    case Copy(place) => env.placeTy(place)
    case Move(place) => env.placeTy(place)
    case Constant(ty) => ty
  }
}
