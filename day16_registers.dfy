/// The four-register value type of the device (Day16/Registers.cs).
module Day16Registers {
  import opened Wrappers
  import opened CSharpInts

  datatype Registers = Registers(r0: Int32, r1: Int32, r2: Int32, r3: Int32)

  /// `default(Registers)`: all four registers zero.
  const Zero := Registers(0, 0, 0, 0)

  /// Register `index` of `regs`, for an index already known to be valid.
  function Reg(regs: Registers, index: int): Int32
    requires 0 <= index < 4
  {
    match index
    case 0 => regs.r0
    case 1 => regs.r1
    case 2 => regs.r2
    case 3 => regs.r3
  }

  /// The indexer `this[index]`: defined for 0..3, an exception otherwise.
  function Get(regs: Registers, index: int): (r: Result<Int32>)
    ensures r.Success? <==> 0 <= index < 4
    ensures r.Success? ==> r.value == Reg(regs, index)
    ensures r.Failure? ==> r.error == ArgumentOutOfRange
  {
    match index
    case 0 => Success(regs.r0)
    case 1 => Success(regs.r1)
    case 2 => Success(regs.r2)
    case 3 => Success(regs.r3)
    case _ => Failure(ArgumentOutOfRange)
  }

  /// `SetWithValue(index, value)`: a copy with register `index` replaced.
  function SetWithValue(regs: Registers, index: int, value: Int32): (r: Result<Registers>)
    ensures r.Success? <==> 0 <= index < 4
    ensures r.Failure? ==> r.error == ArgumentOutOfRange
    ensures r.Success? ==> Reg(r.value, index) == value
    ensures r.Success? ==> forall j :: 0 <= j < 4 && j != index ==> Reg(r.value, j) == Reg(regs, j)
  {
    match index
    case 0 => Success(Registers(value, regs.r1, regs.r2, regs.r3))
    case 1 => Success(Registers(regs.r0, value, regs.r2, regs.r3))
    case 2 => Success(Registers(regs.r0, regs.r1, value, regs.r3))
    case 3 => Success(Registers(regs.r0, regs.r1, regs.r2, value))
    case _ => Failure(ArgumentOutOfRange)
  }

  /// `SetWithRegister(index, register)`: copies register `register` into
  /// register `index`.
  function SetWithRegister(regs: Registers, index: int, register: int): (r: Result<Registers>)
    ensures r.Success? <==> 0 <= index < 4 && 0 <= register < 4
    ensures r.Success? ==> Reg(r.value, index) == Reg(regs, register)
    ensures r.Success? ==> forall j :: 0 <= j < 4 && j != index ==> Reg(r.value, j) == Reg(regs, j)
  {
    var v :- Get(regs, register);
    SetWithValue(regs, index, v)
  }

  /// `Equals`: component-wise comparison.
  predicate Equals(l: Registers, r: Registers)
  {
    l.r0 == r.r0 && l.r1 == r.r1 && l.r2 == r.r2 && l.r3 == r.r3
  }

  /// `operator ==`.
  predicate Equal(l: Registers, r: Registers)
  {
    Equals(l, r)
  }

  /// `operator !=`.
  predicate NotEqual(l: Registers, r: Registers)
  {
    !Equals(l, r)
  }

  /// Two register sets are `Equals` exactly when they agree on every
  /// register, that is, when they are the same value; `!=` is the negation.
  lemma EqualityIsComponentWise(l: Registers, r: Registers)
    ensures Equal(l, r) <==> (forall j :: 0 <= j < 4 ==> Reg(l, j) == Reg(r, j))
    ensures Equal(l, r) <==> l == r
    ensures NotEqual(l, r) <==> !Equal(l, r)
  {
    if forall j :: 0 <= j < 4 ==> Reg(l, j) == Reg(r, j) {
      assert Reg(l, 0) == Reg(r, 0) && Reg(l, 1) == Reg(r, 1);
      assert Reg(l, 2) == Reg(r, 2) && Reg(l, 3) == Reg(r, 3);
    }
  }

  /// Storing a register's own value back leaves the registers unchanged.
  lemma SetOwnValue(regs: Registers, index: int)
    requires 0 <= index < 4
    ensures SetWithValue(regs, index, Reg(regs, index)) == Success(regs)
  {
  }

  /// Reading after writing: the written register holds the value, the others
  /// hold what they held.
  lemma GetAfterSet(regs: Registers, index: int, value: Int32, j: int)
    requires SetWithValue(regs, index, value).Success?
    ensures Get(SetWithValue(regs, index, value).value, j)
         == if j == index then Success(value) else Get(regs, j)
  {
  }
}
