/** The port-optimised task selection of `portmacro.h`: a bitmap of the priorities that have a
    ready task. */
module ReadyPriorities {
  /** `UBaseType_t`. */
  type UBaseType = bv64

  const configMAX_PRIORITIES: UBaseType := 8

  type Priority = p: UBaseType | p < configMAX_PRIORITIES

  /** Is bit `p` of the map set? */
  predicate Bit(bits: UBaseType, p: Priority) {
    (bits >> p) & 1 == 1
  }

  /** `__builtin_clz`: the number of leading zeros of a non-zero word. */
  function Clz(x: bv32): (zeros: bv32)
    requires x != 0
    ensures zeros < 32 && x >> (31 - zeros) == 1
  {
    var n1, x1 := if x >> 16 == 0 then 16 else 0, if x >> 16 == 0 then x << 16 else x;
    var n2, x2 := if x1 >> 24 == 0 then n1 + 8 else n1, if x1 >> 24 == 0 then x1 << 8 else x1;
    var n3, x3 := if x2 >> 28 == 0 then n2 + 4 else n2, if x2 >> 28 == 0 then x2 << 4 else x2;
    var n4, x4 := if x3 >> 30 == 0 then n3 + 2 else n3, if x3 >> 30 == 0 then x3 << 2 else x3;
    if x4 >> 31 == 0 then n4 + 1 else n4
  }

  datatype Op = Record(p: Priority) | Reset(p: Priority)

  /** `portRECORD_READY_PRIORITY` and `portRESET_READY_PRIORITY`. */
  function Apply(bits: UBaseType, op: Op): (next: UBaseType) {
    match op
    case Record(p) => bits | (1 << p)
    case Reset(p) => bits & !(1 << p)
  }

  /** The bitmap after a history of steps, starting empty. */
  function Map(ops: seq<Op>): (bits: UBaseType) {
    if ops == [] then 0 else Apply(Map(ops[..|ops| - 1]), ops[|ops| - 1])
  }

  lemma MapStep(ops: seq<Op>, op: Op)
    ensures Map(ops + [op]) == Apply(Map(ops), op)
  {
    hide Apply;
    assert (ops + [op])[..|ops|] == ops;
  }

  /** The set the bitmap stands for: `p` was recorded and has not been reset since. */
  predicate Ready(ops: seq<Op>, p: Priority) {
    exists i :: 0 <= i < |ops| && ops[i] == Record(p) && forall j :: i < j < |ops| ==> ops[j] != Reset(p)
  }

  lemma ApplyBit(bits: UBaseType, op: Op, q: Priority)
    ensures Bit(Apply(bits, op), q) <==> op == Record(q) || (Bit(bits, q) && op != Reset(q))
    ensures bits < 0x100 ==> Apply(bits, op) < 0x100
  {
  }

  lemma ReadyStep(ops: seq<Op>, op: Op, q: Priority)
    ensures Ready(ops + [op], q) <==> op == Record(q) || (Ready(ops, q) && op != Reset(q))
  {
    var all := ops + [op];
    if op == Record(q) {
      assert all[|ops|] == Record(q);
    }
    if Ready(ops, q) && op != Reset(q) {
      var i :| 0 <= i < |ops| && ops[i] == Record(q) && forall j :: i < j < |ops| ==> ops[j] != Reset(q);
      assert all[i] == Record(q);
    }
    if Ready(all, q) {
      var i :| 0 <= i < |all| && all[i] == Record(q) && forall j :: i < j < |all| ==> all[j] != Reset(q);
      if i < |ops| {
        assert ops[i] == Record(q) && all[|ops|] == op;
        assert forall j :: i < j < |ops| ==> all[j] == ops[j];
      }
    }
  }

  /** The bitmap refines the set: whatever was done, bit `p` is set exactly when `p` is ready. */
  lemma {:induction false} MapIsSet(ops: seq<Op>, p: Priority)
    ensures Bit(Map(ops), p) <==> Ready(ops, p)
    ensures Map(ops) < 0x100
  {
    if ops != [] {
      var front, op := ops[..|ops| - 1], ops[|ops| - 1];
      MapIsSet(front, p);
      ApplyBit(Map(front), op, p);
      ReadyStep(front, op, p);
      assert ops == front + [op];
    }
  }

  /** The expression of `portGET_HIGHEST_PRIORITY`. The argument of `__builtin_clz` is cut to 32
      bits. */
  function Highest(bits: UBaseType): (top: UBaseType)
    requires 0 < bits < 0x100
    ensures top < configMAX_PRIORITIES && Bit(bits, top)
  {
    (31 - Clz((bits & 0xffff_ffff) as bv32)) as UBaseType
  }

  /** 31 - clz is the highest bit that is set; a map without one is zero. */
  lemma HighestBit(bits: UBaseType, q: Priority)
    requires bits < 0x100 && Bit(bits, q)
    ensures bits != 0 && q <= Highest(bits)
  {
  }

  /** The highest bit of the map is the greatest member of the set. */
  lemma HighestReady(ops: seq<Op>, q: Priority)
    requires Ready(ops, q)
    ensures 0 < Map(ops) < 0x100 && Ready(ops, Highest(Map(ops))) && q <= Highest(Map(ops))
  {
    MapIsSet(ops, q);
    HighestBit(Map(ops), q);
    MapIsSet(ops, Highest(Map(ops)));
  }

  /** The scheduler's variable, with the steps it has seen. */
  class ReadyMap {
    var uxReadyPriorities: UBaseType
    ghost var history: seq<Op>

    ghost predicate Valid()
      reads this
    {
      uxReadyPriorities == Map(history)
    }

    constructor ()
      ensures Valid() && history == []
    {
      uxReadyPriorities, history := 0, [];
    }

    method RecordReady(uxPriority: Priority)
      requires Valid()
      modifies this
      ensures Valid() && history == old(history) + [Record(uxPriority)]
    {
      hide Map;
      uxReadyPriorities := uxReadyPriorities | (1 << uxPriority);
      MapStep(history, Record(uxPriority));
      history := history + [Record(uxPriority)];
    }

    method ResetReady(uxPriority: Priority)
      requires Valid()
      modifies this
      ensures Valid() && history == old(history) + [Reset(uxPriority)]
    {
      hide Map;
      uxReadyPriorities := uxReadyPriorities & !(1 << uxPriority);
      MapStep(history, Reset(uxPriority));
      history := history + [Reset(uxPriority)];
    }

    /** `portGET_HIGHEST_PRIORITY`. */
    method GetHighest() returns (uxTopPriority: UBaseType)
      requires Valid() && exists p: Priority :: Ready(history, p)
      ensures uxTopPriority < configMAX_PRIORITIES && Ready(history, uxTopPriority)
      ensures forall q: Priority :: Ready(history, q) ==> q <= uxTopPriority
    {
      forall q: Priority | Ready(history, q)
        ensures 0 < Map(history) < 0x100 && Ready(history, Highest(Map(history))) && q <= Highest(Map(history))
      {
        HighestReady(history, q);
      }
      uxTopPriority := Highest(uxReadyPriorities);
    }
  }
}
