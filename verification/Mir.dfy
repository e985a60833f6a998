/** The parts of a procedure body that the dataflow analyses look at. */
module Mir {
  import opened Wrappers
  import opened Places
  import A = AbstractStates

  datatype Operand = Move(place: Place) | OtherOperand

  /** Right-hand sides, grouped by the operands that they may move from. */
  datatype Rvalue =
    | OneOperand(operand: Operand)
    | TwoOperands(left: Operand, right: Operand)
    | Aggregate(operands: seq<Operand>)
    | OtherRvalue

  datatype Statement = Assign(target: Place, source: Rvalue) | OtherStatement

  datatype Terminator =
    | SwitchInt(discr: Operand, targets: seq<nat>)
    | Drop(place: Place, target: nat, unwind: Option<nat>)
    | DropAndReplace(place: Place, value: Operand, target: nat, unwind: Option<nat>)
    | Call(func: Operand, args: seq<Operand>, destination: Option<(Place, nat)>, cleanup: Option<nat>)
    | Assert(cond: Operand, target: nat, cleanup: Option<nat>)
    | Yield(value: Operand, resume: nat, drop: Option<nat>)
    | InlineAsm(resumption: Option<nat>)
    | OtherTerminator(targets: seq<nat>)

  datatype BasicBlock = BasicBlock(statements: seq<Statement>, terminator: Terminator)

  /** Local 0 is the return place, and the locals 1 to `argCount` are the arguments. */
  datatype Body = Body(locals: Locals, argCount: nat, blocks: seq<BasicBlock>, predecessors: seq<seq<nat>>)

  function Optional(target: Option<nat>): seq<nat> {
    match target
    case None => []
    case Some(b) => [b]
  }

  function Successors(t: Terminator): seq<nat> {
    match t
    case SwitchInt(_, targets) => targets
    case Drop(_, target, unwind) => [target] + Optional(unwind)
    case DropAndReplace(_, _, target, unwind) => [target] + Optional(unwind)
    case Call(_, _, destination, cleanup) =>
      (match destination case None => [] case Some((_, b)) => [b]) + Optional(cleanup)
    case Assert(_, target, cleanup) => [target] + Optional(cleanup)
    case Yield(_, resume, drop) => [resume] + Optional(drop)
    case InlineAsm(resumption) => Optional(resumption)
    case OtherTerminator(targets) => targets
  }

  /** Where control may go from the terminator, spelled out. */
  predicate LeadsTo(t: Terminator, b: nat) {
    match t
    case SwitchInt(_, targets) => b in targets
    case Drop(_, target, unwind) => b == target || unwind == Some(b)
    case DropAndReplace(_, _, target, unwind) => b == target || unwind == Some(b)
    case Call(_, _, destination, cleanup) => (destination.Some? && destination.value.1 == b) || cleanup == Some(b)
    case Assert(_, target, cleanup) => b == target || cleanup == Some(b)
    case Yield(_, resume, drop) => b == resume || drop == Some(b)
    case InlineAsm(resumption) => resumption == Some(b)
    case OtherTerminator(targets) => b in targets
  }

  lemma SuccessorsExactly(t: Terminator, b: nat)
    ensures b in Successors(t) <==> LeadsTo(t, b)
  {
  }

  function CfgOf(body: Body): A.Cfg {
    A.Cfg(
      seq(|body.blocks|, (b: nat) requires b < |body.blocks| => |body.blocks[b].statements|),
      seq(|body.blocks|, (b: nat) requires b < |body.blocks| => Successors(body.blocks[b].terminator)),
      body.predecessors)
  }

  ghost predicate OperandValid(locals: Locals, operand: Operand) {
    operand.Move? ==> Valid(locals, operand.place)
  }

  /** The operands of a right-hand side in the order in which they are evaluated. */
  function OperandsOf(source: Rvalue): seq<Operand> {
    match source
    case OneOperand(operand) => [operand]
    case TwoOperands(left, right) => [left, right]
    case Aggregate(operands) => operands
    case OtherRvalue => []
  }

  ghost predicate RvalueValid(locals: Locals, source: Rvalue) {
    match source
    case OneOperand(operand) => OperandValid(locals, operand)
    case TwoOperands(left, right) => OperandValid(locals, left) && OperandValid(locals, right)
    case Aggregate(operands) => forall operand :: operand in operands ==> OperandValid(locals, operand)
    case OtherRvalue => true
  }

  ghost predicate StatementValid(locals: Locals, s: Statement) {
    s.Assign? ==> Valid(locals, s.target) && RvalueValid(locals, s.source)
  }

  ghost predicate TerminatorValid(locals: Locals, t: Terminator) {
    match t
    case SwitchInt(discr, _) => OperandValid(locals, discr)
    case Drop(place, _, _) => Valid(locals, place)
    case DropAndReplace(place, value, _, _) => Valid(locals, place) && OperandValid(locals, value)
    case Call(func, args, destination, _) =>
      && OperandValid(locals, func)
      && (forall arg :: arg in args ==> OperandValid(locals, arg))
      && (destination.Some? ==> Valid(locals, destination.value.0))
    case Assert(cond, _, _) => OperandValid(locals, cond)
    case Yield(value, _, _) => OperandValid(locals, value)
    case InlineAsm(_) => true
    case OtherTerminator(_) => true
  }

  ghost predicate BodyValid(body: Body) {
    && A.WellFormed(CfgOf(body))
    && body.argCount < |body.locals|
    && forall b: nat :: b < |body.blocks| ==>
         && TerminatorValid(body.locals, body.blocks[b].terminator)
         && forall s :: s in body.blocks[b].statements ==> StatementValid(body.locals, s)
  }

  /** The one kind of terminator that the analyses do not support is absent. */
  ghost predicate NoInlineAsm(body: Body) {
    forall b: nat :: b < |body.blocks| ==> !body.blocks[b].terminator.InlineAsm?
  }
}
