/** Logic gates over Python integers (logic_gates.py).  Every gate accepts
    any integer; `AND`, `NAND` and `OR` return booleans, `XOR` and `XNOR`
    return 0 or 1, and `NOT` and `NOR` fall through to `None` when an input
    is not a bit. */
module LogicGates {
  import opened Wrappers

  /** 0 and 1 are the only integers the gates treat as bits. */
  predicate IsBit(a: int) { a == 0 || a == 1 }

  /** The boolean a bit stands for. */
  function BitValue(a: int): bool
    requires IsBit(a)
  {
    a == 1
  }

  /** The bit a boolean stands for. */
  function ToBit(b: bool): (r: int)
    ensures IsBit(r) && BitValue(r) == b
  {
    if b then 1 else 0
  }

  function And(a: int, b: int): (r: bool)
    ensures r <==> a == 1 && b == 1
    ensures IsBit(a) && IsBit(b) ==> r == (BitValue(a) && BitValue(b))
  {
    if a == 1 && b == 1 then true else false
  }

  function Nand(a: int, b: int): (r: bool)
    ensures r == !And(a, b)
  {
    if a == 1 && b == 1 then false else true
  }

  function Or(a: int, b: int): (r: bool)
    ensures r <==> a == 1 || b == 1
    ensures IsBit(a) && IsBit(b) ==> r == (BitValue(a) || BitValue(b))
  {
    if a == 1 then true
    else if b == 1 then true
    else false
  }

  function Xor(a: int, b: int): (r: int)
    ensures IsBit(r)
    ensures r == 1 <==> a != b
    ensures IsBit(a) && IsBit(b) ==> BitValue(r) == (BitValue(a) != BitValue(b))
  {
    if a != b then 1 else 0
  }

  function Not(a: int): (r: Option<int>)
    ensures r.Some? <==> IsBit(a)
    ensures r.Some? ==> IsBit(r.value) && BitValue(r.value) == !BitValue(a)
  {
    if a == 0 then Some(1)
    else if a == 1 then Some(0)
    else None
  }

  function Nor(a: int, b: int): (r: Option<int>)
    ensures r.Some? <==> IsBit(a) && IsBit(b)
    ensures r.Some? ==> IsBit(r.value) && (r.value == 1 <==> a == 0 && b == 0)
    ensures r.Some? ==> r.value == ToBit(!Or(a, b))
  {
    if a == 0 && b == 0 then Some(1)
    else if a == 0 && b == 1 then Some(0)
    else if a == 1 && b == 0 then Some(0)
    else if a == 1 && b == 1 then Some(0)
    else None
  }

  function Xnor(a: int, b: int): (r: int)
    ensures r == 1 - Xor(a, b)
  {
    if a == b then 1 else 0
  }

  /** `NOT` undoes itself on bits. */
  lemma NotInvolution(a: int)
    requires IsBit(a)
    ensures Not(a).Some? && Not(Not(a).value) == Some(a)
  {
  }

  /** De Morgan on bits: `NAND(a, b)` is `OR(NOT a, NOT b)`. */
  lemma NandDeMorgan(a: int, b: int)
    requires IsBit(a) && IsBit(b)
    ensures Nand(a, b) == Or(Not(a).value, Not(b).value)
  {
  }

  /** De Morgan on bits: `NOR(a, b)` is `AND(NOT a, NOT b)`. */
  lemma NorDeMorgan(a: int, b: int)
    requires IsBit(a) && IsBit(b)
    ensures Nor(a, b) == Some(ToBit(And(Not(a).value, Not(b).value)))
  {
  }

  /** On bits, `XOR` is `OR` and not `AND`. */
  lemma XorFromAndOr(a: int, b: int)
    requires IsBit(a) && IsBit(b)
    ensures Xor(a, b) == ToBit(Or(a, b) && Nand(a, b))
  {
  }

  /** Off the bits the boolean gates and the integer gates disagree:
      `XOR(2, 3)` is 1 although neither input is 1, so `OR` is false. */
  lemma XorOffBits()
    ensures Xor(2, 3) == 1 && !Or(2, 3)
  {
  }
}
