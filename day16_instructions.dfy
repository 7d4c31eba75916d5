/// The sixteen operations of the device (Day16/Instructions/*.cs). Each takes
/// the arguments A, B (inputs) and C (output register) as bytes; an input is
/// either a register number or a literal, as the operation's name says.
module Day16Instructions {
  import opened Wrappers
  import opened CSharpInts
  import opened Day16Registers

  /// The operation names of the registry (the type names, lower-cased).
  datatype Operation =
    | addr | addi | mulr | muli | banr | bani | borr | bori
    | setr | seti | gtir | gtri | gtrr | eqir | eqri | eqrr

  const AllOperations: seq<Operation> :=
    [addr, addi, mulr, muli, banr, bani, borr, bori, setr, seti, gtir, gtri, gtrr, eqir, eqri, eqrr]

  /// Two's-complement bit pattern of a C# int, and back.
  function ToBits(x: Int32): bv32 { (if x < 0 then x + Modulus32 else x) as bv32 }

  function FromBits(b: bv32): Int32
  {
    var u := b as int;
    if u < 0x8000_0000 then u else u - Modulus32
  }

  /// C# `&` and `|` on ints.
  function And32(x: Int32, y: Int32): Int32 { FromBits(ToBits(x) & ToBits(y)) }

  function Or32(x: Int32, y: Int32): Int32 { FromBits(ToBits(x) | ToBits(y)) }

  function Flag(b: bool): (r: Int32)
    ensures r == 0 || r == 1
    ensures r == 1 <==> b
  {
    if b then 1 else 0
  }

  function AddR(a: Byte, b: Byte, c: Byte, regs: Registers): (r: Result<Registers>)
    ensures r.Success? <==> a < 4 && b < 4 && c < 4
    ensures r.Success? ==> Reg(r.value, c) == Wrap32(Reg(regs, a) + Reg(regs, b))
    ensures r.Success? ==> forall j :: 0 <= j < 4 && j != c ==> Reg(r.value, j) == Reg(regs, j)
  {
    var x :- Get(regs, a);
    var y :- Get(regs, b);
    SetWithValue(regs, c, Wrap32(x + y))
  }

  /// `addi`: no source is shown for it; its behaviour is the register-plus-
  /// literal counterpart of `addr`, as the instruction tests pin it.
  function AddI(a: Byte, b: Byte, c: Byte, regs: Registers): (r: Result<Registers>)
    ensures r.Success? <==> a < 4 && c < 4
    ensures r.Success? ==> Reg(r.value, c) == Wrap32(Reg(regs, a) + b)
    ensures r.Success? ==> forall j :: 0 <= j < 4 && j != c ==> Reg(r.value, j) == Reg(regs, j)
  {
    var x :- Get(regs, a);
    SetWithValue(regs, c, Wrap32(x + b))
  }

  function MulR(a: Byte, b: Byte, c: Byte, regs: Registers): (r: Result<Registers>)
    ensures r.Success? <==> a < 4 && b < 4 && c < 4
    ensures r.Success? ==> Reg(r.value, c) == Wrap32(Reg(regs, a) * Reg(regs, b))
    ensures r.Success? ==> forall j :: 0 <= j < 4 && j != c ==> Reg(r.value, j) == Reg(regs, j)
  {
    var x :- Get(regs, a);
    var y :- Get(regs, b);
    SetWithValue(regs, c, Wrap32(x * y))
  }

  function MulI(a: Byte, b: Byte, c: Byte, regs: Registers): (r: Result<Registers>)
    ensures r.Success? <==> a < 4 && c < 4
    ensures r.Success? ==> Reg(r.value, c) == Wrap32(Reg(regs, a) * b)
    ensures r.Success? ==> forall j :: 0 <= j < 4 && j != c ==> Reg(r.value, j) == Reg(regs, j)
  {
    var x :- Get(regs, a);
    SetWithValue(regs, c, Wrap32(x * b))
  }

  function BanR(a: Byte, b: Byte, c: Byte, regs: Registers): (r: Result<Registers>)
    ensures r.Success? <==> a < 4 && b < 4 && c < 4
    ensures r.Success? ==> Reg(r.value, c) == And32(Reg(regs, a), Reg(regs, b))
    ensures r.Success? ==> forall j :: 0 <= j < 4 && j != c ==> Reg(r.value, j) == Reg(regs, j)
  {
    var x :- Get(regs, a);
    var y :- Get(regs, b);
    SetWithValue(regs, c, And32(x, y))
  }

  function BanI(a: Byte, b: Byte, c: Byte, regs: Registers): (r: Result<Registers>)
    ensures r.Success? <==> a < 4 && c < 4
    ensures r.Success? ==> Reg(r.value, c) == And32(Reg(regs, a), b)
    ensures r.Success? ==> forall j :: 0 <= j < 4 && j != c ==> Reg(r.value, j) == Reg(regs, j)
  {
    var x :- Get(regs, a);
    SetWithValue(regs, c, And32(x, b))
  }

  function BorR(a: Byte, b: Byte, c: Byte, regs: Registers): (r: Result<Registers>)
    ensures r.Success? <==> a < 4 && b < 4 && c < 4
    ensures r.Success? ==> Reg(r.value, c) == Or32(Reg(regs, a), Reg(regs, b))
    ensures r.Success? ==> forall j :: 0 <= j < 4 && j != c ==> Reg(r.value, j) == Reg(regs, j)
  {
    var x :- Get(regs, a);
    var y :- Get(regs, b);
    SetWithValue(regs, c, Or32(x, y))
  }

  function BorI(a: Byte, b: Byte, c: Byte, regs: Registers): (r: Result<Registers>)
    ensures r.Success? <==> a < 4 && c < 4
    ensures r.Success? ==> Reg(r.value, c) == Or32(Reg(regs, a), b)
    ensures r.Success? ==> forall j :: 0 <= j < 4 && j != c ==> Reg(r.value, j) == Reg(regs, j)
  {
    var x :- Get(regs, a);
    SetWithValue(regs, c, Or32(x, b))
  }

  /// `setr`: B plays no part.
  function SetR(a: Byte, b: Byte, c: Byte, regs: Registers): (r: Result<Registers>)
    ensures r.Success? <==> a < 4 && c < 4
    ensures r.Success? ==> Reg(r.value, c) == Reg(regs, a)
    ensures r.Success? ==> forall j :: 0 <= j < 4 && j != c ==> Reg(r.value, j) == Reg(regs, j)
  {
    SetWithRegister(regs, c, a)
  }

  /// `seti`: reads no register and ignores B.
  function SetI(a: Byte, b: Byte, c: Byte, regs: Registers): (r: Result<Registers>)
    ensures r.Success? <==> c < 4
    ensures r.Success? ==> Reg(r.value, c) == a
    ensures r.Success? ==> forall j :: 0 <= j < 4 && j != c ==> Reg(r.value, j) == Reg(regs, j)
  {
    SetWithValue(regs, c, a)
  }

  function GtIR(a: Byte, b: Byte, c: Byte, regs: Registers): (r: Result<Registers>)
    ensures r.Success? <==> b < 4 && c < 4
    ensures r.Success? ==> Reg(r.value, c) == Flag(a > Reg(regs, b))
    ensures r.Success? ==> forall j :: 0 <= j < 4 && j != c ==> Reg(r.value, j) == Reg(regs, j)
  {
    var y :- Get(regs, b);
    SetWithValue(regs, c, if a > y then 1 else 0)
  }

  function GtRI(a: Byte, b: Byte, c: Byte, regs: Registers): (r: Result<Registers>)
    ensures r.Success? <==> a < 4 && c < 4
    ensures r.Success? ==> Reg(r.value, c) == Flag(Reg(regs, a) > b)
    ensures r.Success? ==> forall j :: 0 <= j < 4 && j != c ==> Reg(r.value, j) == Reg(regs, j)
  {
    var x :- Get(regs, a);
    SetWithValue(regs, c, if x > b then 1 else 0)
  }

  function GtRR(a: Byte, b: Byte, c: Byte, regs: Registers): (r: Result<Registers>)
    ensures r.Success? <==> a < 4 && b < 4 && c < 4
    ensures r.Success? ==> Reg(r.value, c) == Flag(Reg(regs, a) > Reg(regs, b))
    ensures r.Success? ==> forall j :: 0 <= j < 4 && j != c ==> Reg(r.value, j) == Reg(regs, j)
  {
    var x :- Get(regs, a);
    var y :- Get(regs, b);
    SetWithValue(regs, c, if x > y then 1 else 0)
  }

  function EqIR(a: Byte, b: Byte, c: Byte, regs: Registers): (r: Result<Registers>)
    ensures r.Success? <==> b < 4 && c < 4
    ensures r.Success? ==> Reg(r.value, c) == Flag(a == Reg(regs, b))
    ensures r.Success? ==> forall j :: 0 <= j < 4 && j != c ==> Reg(r.value, j) == Reg(regs, j)
  {
    var y :- Get(regs, b);
    SetWithValue(regs, c, if a == y then 1 else 0)
  }

  function EqRI(a: Byte, b: Byte, c: Byte, regs: Registers): (r: Result<Registers>)
    ensures r.Success? <==> a < 4 && c < 4
    ensures r.Success? ==> Reg(r.value, c) == Flag(Reg(regs, a) == b)
    ensures r.Success? ==> forall j :: 0 <= j < 4 && j != c ==> Reg(r.value, j) == Reg(regs, j)
  {
    var x :- Get(regs, a);
    SetWithValue(regs, c, if x == b then 1 else 0)
  }

  function EqRR(a: Byte, b: Byte, c: Byte, regs: Registers): (r: Result<Registers>)
    ensures r.Success? <==> a < 4 && b < 4 && c < 4
    ensures r.Success? ==> Reg(r.value, c) == Flag(Reg(regs, a) == Reg(regs, b))
    ensures r.Success? ==> forall j :: 0 <= j < 4 && j != c ==> Reg(r.value, j) == Reg(regs, j)
  {
    var x :- Get(regs, a);
    var y :- Get(regs, b);
    SetWithValue(regs, c, if x == y then 1 else 0)
  }

  /// `Opcode.Opcodes[name](a, b, c).Execute(regs)`.
  function Execute(op: Operation, a: Byte, b: Byte, c: Byte, regs: Registers): Result<Registers>
  {
    match op
    case addr => AddR(a, b, c, regs)
    case addi => AddI(a, b, c, regs)
    case mulr => MulR(a, b, c, regs)
    case muli => MulI(a, b, c, regs)
    case banr => BanR(a, b, c, regs)
    case bani => BanI(a, b, c, regs)
    case borr => BorR(a, b, c, regs)
    case bori => BorI(a, b, c, regs)
    case setr => SetR(a, b, c, regs)
    case seti => SetI(a, b, c, regs)
    case gtir => GtIR(a, b, c, regs)
    case gtri => GtRI(a, b, c, regs)
    case gtrr => GtRR(a, b, c, regs)
    case eqir => EqIR(a, b, c, regs)
    case eqri => EqRI(a, b, c, regs)
    case eqrr => EqRR(a, b, c, regs)
  }

  /// `setr` and `seti` do not depend on B.
  lemma CopiesIgnoreB(a: Byte, b: Byte, b': Byte, c: Byte, regs: Registers)
    ensures SetR(a, b, c, regs) == SetR(a, b', c, regs)
    ensures SetI(a, b, c, regs) == SetI(a, b', c, regs)
  {
  }

  /// The registry holds sixteen distinct operations.
  lemma RegistrySize()
    ensures |AllOperations| == 16
    ensures forall i, j :: 0 <= i < j < 16 ==> AllOperations[i] != AllOperations[j]
    ensures forall op: Operation :: op in AllOperations
  {
    forall op: Operation ensures op in AllOperations {
      match op
      case addr => assert AllOperations[0] == op; case addi => assert AllOperations[1] == op;
      case mulr => assert AllOperations[2] == op; case muli => assert AllOperations[3] == op;
      case banr => assert AllOperations[4] == op; case bani => assert AllOperations[5] == op;
      case borr => assert AllOperations[6] == op; case bori => assert AllOperations[7] == op;
      case setr => assert AllOperations[8] == op; case seti => assert AllOperations[9] == op;
      case gtir => assert AllOperations[10] == op; case gtri => assert AllOperations[11] == op;
      case gtrr => assert AllOperations[12] == op; case eqir => assert AllOperations[13] == op;
      case eqri => assert AllOperations[14] == op; case eqrr => assert AllOperations[15] == op;
    }
  }

  /// Whatever the operation, execution fails exactly when one of the
  /// arguments it uses as a register number is outside 0..3; every
  /// operation uses C as a register.
  lemma {:induction false} ExecuteFailsOnlyOnBadRegister(op: Operation, a: Byte, b: Byte, c: Byte, regs: Registers)
    ensures Execute(op, a, b, c, regs).Failure? ==> a >= 4 || b >= 4 || c >= 4
    ensures c >= 4 ==> Execute(op, a, b, c, regs).Failure?
    ensures Execute(op, a, b, c, regs).Failure? ==> Execute(op, a, b, c, regs).error == ArgumentOutOfRange
  {
    match op
    case addr => {} case addi => {} case mulr => {} case muli => {}
    case banr => {} case bani => {} case borr => {} case bori => {}
    case setr => {} case seti => {} case gtir => {} case gtri => {}
    case gtrr => {} case eqir => {} case eqri => {} case eqrr => {}
  }

  /// The instruction tests, one or two per operation.
  lemma InstructionExamples()
    ensures AddR(0, 1, 2, Registers(2, 3, 0, 0)) == Success(Registers(2, 3, 5, 0))
    ensures AddI(2, 6, 0, Registers(0, 3, 5, 6)) == Success(Registers(11, 3, 5, 6))
    ensures MulR(0, 1, 2, Registers(2, 3, 0, 0)) == Success(Registers(2, 3, 6, 0))
    ensures MulI(2, 6, 0, Registers(0, 3, 5, 6)) == Success(Registers(30, 3, 5, 6))
    ensures BanR(0, 1, 2, Registers(0xff00, 0x4242, 0, 0)) == Success(Registers(0xff00, 0x4242, 0x4200, 0))
    ensures BanI(2, 6, 0, Registers(0, 3, 5, 6)) == Success(Registers(4, 3, 5, 6))
    ensures BorR(0, 1, 2, Registers(0xff00, 0x4242, 0, 0)) == Success(Registers(0xff00, 0x4242, 0xff42, 0))
    ensures BorI(2, 6, 0, Registers(0, 3, 5, 6)) == Success(Registers(7, 3, 5, 6))
    ensures SetR(0, 1, 2, Registers(0xff00, 0x4242, 0, 0)) == Success(Registers(0xff00, 0x4242, 0xff00, 0))
    ensures SetI(2, 6, 0, Registers(0, 3, 5, 6)) == Success(Registers(2, 3, 5, 6))
    ensures GtIR(6, 2, 0, Registers(0, 3, 5, 6)) == Success(Registers(1, 3, 5, 6))
    ensures GtIR(5, 2, 0, Registers(0, 3, 5, 6)) == Success(Registers(0, 3, 5, 6))
    ensures GtRR(3, 2, 0, Registers(0, 3, 5, 6)) == Success(Registers(1, 3, 5, 6))
    ensures GtRR(1, 2, 0, Registers(0, 3, 5, 6)) == Success(Registers(0, 3, 5, 6))
    ensures GtRI(3, 5, 0, Registers(0, 3, 5, 6)) == Success(Registers(1, 3, 5, 6))
    ensures GtRI(2, 5, 0, Registers(0, 3, 5, 6)) == Success(Registers(0, 3, 5, 6))
    ensures EqIR(6, 3, 0, Registers(0, 3, 5, 6)) == Success(Registers(1, 3, 5, 6))
    ensures EqIR(5, 3, 0, Registers(0, 3, 5, 6)) == Success(Registers(0, 3, 5, 6))
    ensures EqRR(3, 2, 0, Registers(0, 3, 5, 5)) == Success(Registers(1, 3, 5, 5))
    ensures EqRR(3, 1, 0, Registers(0, 3, 5, 5)) == Success(Registers(0, 3, 5, 5))
    ensures EqRI(2, 5, 0, Registers(0, 3, 5, 6)) == Success(Registers(1, 3, 5, 6))
    ensures EqRI(3, 5, 0, Registers(0, 3, 5, 6)) == Success(Registers(0, 3, 5, 6))
  {
  }
}
