/**
 capa-x/src/extract/aarch64/features.rs: block-scoped address materialization, against the registers of every concrete
 run. The decoded text operands of an instruction are given as a datatype; whatever the parsers reject is `Other`.
 */
module Aarch64 {
  import opened Base
  import opened Features

  /** x0 to x30: the registers that can be tracked. */
  type Reg = n: nat | n <= 30

  datatype Mode = PlainOffset | PreIndex | PostIndex

  datatype Op =
    | Adrp(rd: Reg, page: u64)
    | AddImm(rd: Reg, rn: Reg, imm: i64)
    | Load(rt: Reg, rn: Reg, imm: i64, mode: Mode)
    | LoadLiteral(rt: Reg, target: u64)
    | Other

  datatype Insn = Insn(address: u64, op: Op)

  const TWO_TO_THE_64: nat := 0x1_0000_0000_0000_0000

  /** The sum in 64 bits: whatever the carry out of them, it is dropped. */
  function WrappingAdd(base: u64, imm: i64): (r: u64)
    ensures r == base + imm || r == base + imm - 0x1_0000_0000_0000_0000 || r == base + imm + 0x1_0000_0000_0000_0000
  {
    (base + imm) % TWO_TO_THE_64
  }

  // ---- the tracking ----

  type Known = map<Reg, u64>

  /** Whether the instruction continues the tracking; any other one clears it. */
  predicate Continues(op: Op, known: Known) {
    match op
    case Adrp(_, _) => true
    case AddImm(_, rn, _) => rn in known
    case Load(_, rn, _, _) => rn in known
    case LoadLiteral(_, _) => true
    case Other => false
  }

  function KnownAfter(op: Op, known: Known): Known {
    if !Continues(op, known) then map[]
    else
      match op
      case Adrp(rd, page) => known[rd := page]
      case AddImm(rd, rn, imm) => known[rd := WrappingAdd(known[rn], imm)]
      case Load(rt, _, _, _) => known - {rt}
      case LoadLiteral(rt, _) => known - {rt}
      case Other => map[]
  }

  /** The address that the tracking resolves for the instruction. */
  function Emitted(op: Op, known: Known): Option<u64> {
    if !Continues(op, known) then None
    else
      match op
      case Adrp(_, _) => None
      case AddImm(_, rn, imm) => Some(WrappingAdd(known[rn], imm))
      case Load(_, rn, imm, _) => Some(WrappingAdd(known[rn], imm))
      case LoadLiteral(_, target) => Some(target)
      case Other => None
  }

  /** What is tracked before instruction `n`. */
  function KnownAt(block: seq<Insn>, n: nat): Known
    requires n <= |block|
  {
    if n == 0 then map[] else KnownAfter(block[n - 1].op, KnownAt(block, n - 1))
  }

  function OutAt(block: seq<Insn>, n: nat): map<u64, u64>
    requires n <= |block|
  {
    if n == 0 then map[]
    else
      var emitted := Emitted(block[n - 1].op, KnownAt(block, n - 1));
      if emitted.Some? then OutAt(block, n - 1)[block[n - 1].address := emitted.value] else OutAt(block, n - 1)
  }

  method TryMaterializeStep(insn: Insn, before: Known, resolved: map<u64, u64>)
    returns (matched: bool, known: Known, out: map<u64, u64>)
    ensures matched <==> Continues(insn.op, before)
    ensures matched ==> known == KnownAfter(insn.op, before)
    ensures var emitted := Emitted(insn.op, before);
            out == if emitted.Some? then resolved[insn.address := emitted.value] else resolved
  {
    known, out := before, resolved;
    match insn.op
    case Adrp(rd, page) =>
      known := known[rd := page];
      return true, known, out;
    case AddImm(rd, rn, imm) =>
      if rn !in known { return false, known, out; }
      var value := WrappingAdd(known[rn], imm);
      known := known[rd := value];
      out := out[insn.address := value];
      return true, known, out;
    case Load(rt, rn, imm, _) =>
      if rn !in known { return false, known, out; }
      out := out[insn.address := WrappingAdd(known[rn], imm)];
      known := known - {rt};
      return true, known, out;
    case LoadLiteral(rt, target) =>
      out := out[insn.address := target];
      known := known - {rt};
      return true, known, out;
    case Other =>
      return false, known, out;
  }

  method MaterializeAddresses(block: seq<Insn>) returns (out: map<u64, u64>)
    ensures out == OutAt(block, |block|)
  {
    var known: Known := map[];
    out := map[];
    for i := 0 to |block|
      invariant known == KnownAt(block, i) && out == OutAt(block, i)
    {
      var matched, after, resolved := TryMaterializeStep(block[i], known, out);
      known, out := if matched then after else map[], resolved;
    }
  }

  // ---- the machine ----

  type Registers = s: seq<u64> | |s| == 31 witness seq(31, _ => 0)

  /** The two register files agree but for the registers in `except`. */
  predicate SameBut(s: Registers, t: Registers, except: set<Reg>) {
    forall r: Reg | r !in except :: s[r] == t[r]
  }

  /**
   One instruction. A load puts any value in its target; with writeback its base moves on, unless it is the target as
   well, which leaves it undefined. An instruction that is not modelled may change every register.
   */
  predicate Step(op: Op, s: Registers, t: Registers) {
    match op
    case Adrp(rd, page) => t == s[rd := page]
    case AddImm(rd, rn, imm) => t == s[rd := WrappingAdd(s[rn], imm)]
    case Load(rt, rn, imm, mode) =>
      if mode.PlainOffset? then SameBut(s, t, {rt})
      else SameBut(s, t, {rt, rn}) && (rn != rt ==> t[rn] == WrappingAdd(s[rn], imm))
    case LoadLiteral(rt, _) => SameBut(s, t, {rt})
    case Other => true
  }

  /** The address that the instruction itself computes. */
  function Computed(op: Op, s: Registers): Option<u64> {
    match op
    case Adrp(_, _) => None
    case AddImm(_, rn, imm) => Some(WrappingAdd(s[rn], imm))
    case Load(_, rn, imm, mode) => Some(if mode.PostIndex? then s[rn] else WrappingAdd(s[rn], imm))
    case LoadLiteral(_, target) => Some(target)
    case Other => None
  }

  ghost predicate IsRun(block: seq<Insn>, states: seq<Registers>) {
    |states| == |block| + 1 && forall i | 0 <= i < |block| :: StepAt(block, states, i)
  }

  predicate StepAt(block: seq<Insn>, states: seq<Registers>, i: nat)
    requires |states| == |block| + 1 && i < |block|
  {
    Step(block[i].op, states[i], states[i + 1])
  }

  predicate Agrees(known: Known, s: Registers) {
    forall r | r in known :: s[r] == known[r]
  }

  /** Along the run each tracked register holds its tracked value, and each resolved address is the computed one. */
  ghost predicate SoundOn(block: seq<Insn>, states: seq<Registers>)
    requires |states| == |block| + 1
  {
    && (forall i | 0 <= i <= |block| :: AgreesAt(block, states, i))
    && forall i | 0 <= i < |block| :: ResolvesAt(block, states, i)
  }

  predicate AgreesAt(block: seq<Insn>, states: seq<Registers>, i: nat)
    requires |states| == |block| + 1 && i <= |block|
  {
    Agrees(KnownAt(block, i), states[i])
  }

  predicate ResolvesAt(block: seq<Insn>, states: seq<Registers>, i: nat)
    requires |states| == |block| + 1 && i < |block|
  {
    ResolvesRight(block[i].op, KnownAt(block, i), states[i])
  }

  predicate ResolvesRight(op: Op, known: Known, s: Registers) {
    Emitted(op, known).Some? ==> Emitted(op, known) == Computed(op, s)
  }

  // ---- when tracking is sound ----

  /** The registers that are tracked, told from the instructions alone. */
  function TrackedAfter(op: Op, tracked: set<Reg>): set<Reg> {
    match op
    case Adrp(rd, _) => tracked + {rd}
    case AddImm(rd, rn, _) => if rn in tracked then tracked + {rd} else {}
    case Load(rt, rn, _, _) => if rn in tracked then tracked - {rt} else {}
    case LoadLiteral(rt, _) => tracked - {rt}
    case Other => {}
  }

  function TrackedAt(block: seq<Insn>, n: nat): set<Reg>
    requires n <= |block|
  {
    if n == 0 then {} else TrackedAfter(block[n - 1].op, TrackedAt(block, n - 1))
  }

  /** A load that moves its tracked base, and either resolves the moved address or goes on tracking the old base. */
  predicate Spoils(op: Op, tracked: set<Reg>) {
    && op.Load? && op.rn in tracked && op.imm != 0
    && (op.mode.PostIndex? || (op.mode.PreIndex? && op.rt != op.rn))
  }

  /** The instruction puts an address into the register. */
  predicate Seeds(op: Op, tracked: set<Reg>, r: Reg) {
    (op.Adrp? && op.rd == r) || (op.AddImm? && op.rd == r && op.rn in tracked)
  }

  /** The instruction leaves the address in the register: it is understood, and does not load over it. */
  predicate Passes(op: Op, tracked: set<Reg>, r: Reg) {
    && !op.Other?
    && (op.AddImm? || op.Load? ==> op.rn in tracked)
    && (op.Load? || op.LoadLiteral? ==> op.rt != r)
  }

  /** Instruction `w` put an address into the register, and all from there to `i` have left it. */
  ghost predicate HeldSince(block: seq<Insn>, w: nat, i: nat, r: Reg)
    requires w < i <= |block|
  {
    && Seeds(block[w].op, TrackedAt(block, w), r)
    && forall k | w < k < i :: Passes(block[k].op, TrackedAt(block, k), r)
  }

  /** Some earlier instruction put an address into the register that every one since has left there. */
  ghost predicate IsHeld(block: seq<Insn>, i: nat, r: Reg)
    requires i <= |block|
  {
    exists w: nat | w < i :: HeldSince(block, w, i, r)
  }

  /**
   The tracked registers are those that hold an address. As an equation for what is tracked before each instruction in
   terms of what was before earlier ones, this has only one solution.
   */
  lemma {:induction false} TrackedIff(block: seq<Insn>, i: nat, r: Reg)
    requires i <= |block|
    ensures r in TrackedAt(block, i) <==> IsHeld(block, i, r)
  {
    if i > 0 {
      TrackedIff(block, i - 1, r);
      HeldNext(block, i - 1, r);
    }
  }

  lemma HeldNext(block: seq<Insn>, i: nat, r: Reg)
    requires i < |block|
    ensures var op, tracked := block[i].op, TrackedAt(block, i);
            IsHeld(block, i + 1, r) <==> Seeds(op, tracked, r) || (IsHeld(block, i, r) && Passes(op, tracked, r))
  {
    var next := i + 1;
    forall w: nat | w < i
      ensures HeldSince(block, w, next, r)
              <==> HeldSince(block, w, i, r) && Passes(block[i].op, TrackedAt(block, i), r)
    {
    }
    assert HeldSince(block, i, next, r) <==> Seeds(block[i].op, TrackedAt(block, i), r);
    if IsHeld(block, next, r) {
      var w: nat :| w < next && HeldSince(block, w, next, r);
      assert w < i ==> HeldSince(block, w, i, r);
    }
  }

  predicate NoLiveWriteback(block: seq<Insn>) {
    forall i | 0 <= i < |block| :: !Spoils(block[i].op, TrackedAt(block, i))
  }

  lemma {:induction false} TrackedAreKnown(block: seq<Insn>, n: nat)
    requires n <= |block|
    ensures TrackedAt(block, n) == KnownAt(block, n).Keys
  {
    if n > 0 {
      TrackedAreKnown(block, n - 1);
    }
  }

  lemma WrappingAddMoves(base: u64, imm: i64)
    ensures WrappingAdd(base, imm) == base <==> imm == 0
  {
  }

  lemma StepKeepsAgreement(op: Op, known: Known, s: Registers, t: Registers)
    requires Agrees(known, s) && Step(op, s, t) && !Spoils(op, known.Keys)
    ensures Agrees(KnownAfter(op, known), t) && ResolvesRight(op, known, s)
  {
    if op.Load? {
      WrappingAddMoves(s[op.rn], op.imm);
    }
  }

  lemma SpoilingStepIsWrong(op: Op, known: Known, s: Registers, t: Registers)
    requires Agrees(known, s) && Step(op, s, t) && Spoils(op, known.Keys)
    ensures !Agrees(KnownAfter(op, known), t) || !ResolvesRight(op, known, s)
  {
    WrappingAddMoves(s[op.rn], op.imm);
    if op.mode.PreIndex? {
      assert op.rn in KnownAfter(op, known);
    }
  }

  lemma {:induction false} SoundUpTo(block: seq<Insn>, states: seq<Registers>, n: nat)
    requires IsRun(block, states) && n <= |block|
    requires forall i | 0 <= i < n :: !Spoils(block[i].op, TrackedAt(block, i))
    ensures forall i | 0 <= i <= n :: AgreesAt(block, states, i)
    ensures forall i | 0 <= i < n :: ResolvesAt(block, states, i)
  {
    if n > 0 {
      SoundUpTo(block, states, n - 1);
      TrackedAreKnown(block, n - 1);
      var op, known := block[n - 1].op, KnownAt(block, n - 1);
      assert StepAt(block, states, n - 1) && AgreesAt(block, states, n - 1);
      StepKeepsAgreement(op, known, states[n - 1], states[n]);
      assert KnownAt(block, n) == KnownAfter(op, known);
    }
  }

  function Successor(op: Op, s: Registers): Registers {
    match op
    case Adrp(rd, page) => s[rd := page]
    case AddImm(rd, rn, imm) => s[rd := WrappingAdd(s[rn], imm)]
    case Load(rt, rn, imm, mode) => if mode.PlainOffset? then s else s[rn := WrappingAdd(s[rn], imm)]
    case LoadLiteral(_, _) => s
    case Other => s
  }

  /** From any registers the block has a run. */
  lemma {:induction false} RunFrom(block: seq<Insn>, start: Registers) returns (states: seq<Registers>)
    ensures IsRun(block, states) && states[0] == start
  {
    if block == [] {
      states := [start];
    } else {
      var init := block[..|block| - 1];
      var before := RunFrom(init, start);
      states := before + [Successor(block[|block| - 1].op, before[|init|])];
      forall i | 0 <= i < |block| ensures StepAt(block, states, i) {
        if i < |init| {
          assert StepAt(init, before, i);
        }
      }
    }
  }

  /**
   Materialization is sound exactly on blocks without live writeback: then every run from any registers agrees with the
   tracking throughout. A single load that moves its tracked base by a non-zero amount makes every run disagree.
   */
  lemma SoundIffNoLiveWriteback(block: seq<Insn>)
    ensures (forall states | IsRun(block, states) :: SoundOn(block, states)) <==> NoLiveWriteback(block)
  {
    if NoLiveWriteback(block) {
      forall states | IsRun(block, states) ensures SoundOn(block, states) {
        SoundUpTo(block, states, |block|);
      }
    } else {
      var n := FirstSpoiler(block);
      var states := RunFrom(block, seq(31, _ => 0));
      SoundUpTo(block, states, n);
      TrackedAreKnown(block, n);
      assert StepAt(block, states, n) && AgreesAt(block, states, n);
      SpoilingStepIsWrong(block[n].op, KnownAt(block, n), states[n], states[n + 1]);
      assert KnownAt(block, n + 1) == KnownAfter(block[n].op, KnownAt(block, n));
      assert !AgreesAt(block, states, n + 1) || !ResolvesAt(block, states, n);
    }
  }

  lemma FirstSpoiler(block: seq<Insn>) returns (n: nat)
    requires !NoLiveWriteback(block)
    ensures n < |block| && Spoils(block[n].op, TrackedAt(block, n))
    ensures forall i | 0 <= i < n :: !Spoils(block[i].op, TrackedAt(block, i))
  {
    n := 0;
    while !Spoils(block[n].op, TrackedAt(block, n))
      invariant n < |block|
      invariant forall i | 0 <= i < n :: !Spoils(block[i].op, TrackedAt(block, i))
      decreases |block| - n
    {
      n := n + 1;
    }
  }

  /**
   Why the condition is needed: after a post-indexed load the tracking resolves the moved base, which was not accessed.
   */
  lemma PostIndexResolvesWrongly()
    ensures var block := [Insn(0x1000, Adrp(0, 0x5000)), Insn(0x1004, Load(1, 0, 8, PostIndex))];
            && OutAt(block, 2) == map[0x1004 := 0x5008]
            && forall states | IsRun(block, states) :: Computed(block[1].op, states[1]) == Some(0x5000)
  {
    var block := [Insn(0x1000, Adrp(0, 0x5000)), Insn(0x1004, Load(1, 0, 8, PostIndex))];
    assert KnownAt(block, 1) == KnownAfter(block[0].op, KnownAt(block, 0));
    assert OutAt(block, 1) == OutAt(block, 0);
    forall states | IsRun(block, states) ensures Computed(block[1].op, states[1]) == Some(0x5000) {
      assert StepAt(block, states, 0);
    }
  }

  predicate AddressesDiffer(block: seq<Insn>) {
    forall i, j | 0 <= i < j < |block| :: block[i].address != block[j].address
  }

  /** The result map: with distinct addresses it has what each instruction resolved. */
  lemma {:induction false} OutIsEmitted(block: seq<Insn>, n: nat, a: u64)
    requires n <= |block| && AddressesDiffer(block)
    ensures a in OutAt(block, n) <==>
              exists i | 0 <= i < n :: block[i].address == a && Emitted(block[i].op, KnownAt(block, i)).Some?
    ensures a in OutAt(block, n) ==>
              exists i | 0 <= i < n ::
                block[i].address == a && Emitted(block[i].op, KnownAt(block, i)) == Some(OutAt(block, n)[a])
  {
    if n > 0 {
      OutIsEmitted(block, n - 1, a);
    }
  }

  /** The instruction refers to an address that is known: a literal, or one from a tracked base register. */
  predicate RefersToKnown(block: seq<Insn>, i: nat)
    requires i < |block|
  {
    match block[i].op
    case AddImm(_, rn, _) => rn in TrackedAt(block, i)
    case Load(_, rn, _, _) => rn in TrackedAt(block, i)
    case LoadLiteral(_, _) => true
    case Adrp(_, _) => false
    case Other => false
  }

  lemma EmittedIffKnown(block: seq<Insn>, i: nat)
    requires i < |block|
    ensures Emitted(block[i].op, KnownAt(block, i)).Some? <==> RefersToKnown(block, i)
  {
    TrackedAreKnown(block, i);
  }

  lemma EntryIsEmitted(block: seq<Insn>, i: nat)
    requires AddressesDiffer(block) && i < |block|
    ensures var out, emitted := OutAt(block, |block|), Emitted(block[i].op, KnownAt(block, i));
            && (block[i].address in out <==> emitted.Some?)
            && (emitted.Some? ==> emitted == Some(out[block[i].address]))
  {
    var a, out := block[i].address, OutAt(block, |block|);
    OutIsEmitted(block, |block|, a);
    if a in out {
      var j :| 0 <= j < |block| && block[j].address == a && Emitted(block[j].op, KnownAt(block, j)) == Some(out[a]);
      assert i == j;
    }
  }

  /** The result has an entry for every instruction that refers to a known address, and no others. */
  lemma MaterializedIff(block: seq<Insn>, a: u64)
    requires AddressesDiffer(block)
    ensures a in OutAt(block, |block|)
            <==> exists i: nat | i < |block| :: block[i].address == a && RefersToKnown(block, i)
  {
    OutIsEmitted(block, |block|, a);
    forall i: nat | i < |block|
      ensures Emitted(block[i].op, KnownAt(block, i)).Some? <==> RefersToKnown(block, i)
    {
      EmittedIffKnown(block, i);
    }
  }

  /**
   What the extractor relies on: the instructions that refer to a known address are those with an entry, and it is the
   address that the instruction computes.
   */
  lemma MaterializedIsComputed(block: seq<Insn>, states: seq<Registers>, i: nat)
    requires AddressesDiffer(block) && NoLiveWriteback(block) && IsRun(block, states) && i < |block|
    ensures var out := OutAt(block, |block|);
            && (block[i].address in out <==> RefersToKnown(block, i))
            && (block[i].address in out ==> Computed(block[i].op, states[i]) == Some(out[block[i].address]))
  {
    EntryIsEmitted(block, i);
    EmittedIffKnown(block, i);
    SoundUpTo(block, states, |block|);
    assert ResolvesAt(block, states, i);
  }
}
