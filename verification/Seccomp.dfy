/** The seccomp allow-list compiler, and the classic BPF machine that gives its output a meaning. */
module Bpf {
  import opened Words

  const LD: bv16 := 0x00
  const W: bv16 := 0x00
  const ABS: bv16 := 0x20
  const JMP: bv16 := 0x05
  const JEQ: bv16 := 0x10
  const K: bv16 := 0x00
  const RET: bv16 := 0x06

  datatype Filter = Filter(code: bv16, jt: Byte, jf: Byte, k: U32)

  function Stmt(code: bv16, k: U32): Filter { Filter(code, 0, 0, k) }

  function Jump(code: bv16, k: U32, jt: Byte, jf: Byte): Filter { Filter(code, jt, jf, k) }

  /** The record a filter inspects: struct seccomp_data as sixteen 32-bit words. */
  type Record = r: seq<U32> | |r| == 16 witness seq(16, _ => 0)

  predicate IsLoad(f: Filter) { f.code == LD | W | ABS }

  predicate IsJumpEq(f: Filter) { f.code == JMP | JEQ | K }

  predicate IsReturn(f: Filter) { f.code == RET | K }

  predicate LoadableAt(k: U32) { k % 4 == 0 && k < 64 }

  datatype Outcome = Returns(action: U32, steps: nat) | Faults

  /** The classic BPF machine from instruction pc with accumulator acc (None before any load). */
  function Exec(prog: seq<Filter>, data: Record, pc: nat, acc: Option<U32>, steps: nat): Outcome
    decreases if pc < |prog| then |prog| - pc else 0
  {
    if pc >= |prog| then Faults
    else
      var f := prog[pc];
      if IsReturn(f) then Returns(f.k, steps + 1)
      else if IsLoad(f) then
        if LoadableAt(f.k) then Exec(prog, data, pc + 1, Some(data[f.k / 4]), steps + 1) else Faults
      else if IsJumpEq(f) then
        if acc.None? then Faults
        else Exec(prog, data, pc + 1 + (if acc.value == f.k then f.jt else f.jf), acc, steps + 1)
      else Faults
  }

  function Evaluate(prog: seq<Filter>, data: Record): Outcome { Exec(prog, data, 0, None, 0) }

  /** The action alone, without the cost. */
  function Verdict(prog: seq<Filter>, data: Record): Option<U32> {
    if Evaluate(prog, data).Returns? then Some(Evaluate(prog, data).action) else None
  }

  // ---- the checker ----

  /** One instruction is known, loads an aligned word of the record, and jumps inside the program. */
  predicate CheckedAt(prog: seq<Filter>, pc: nat)
    requires pc < |prog|
  {
    var f := prog[pc];
    || IsReturn(f)
    || (IsLoad(f) && LoadableAt(f.k) && pc + 1 < |prog|)
    || (IsJumpEq(f) && pc + 1 + f.jt < |prog| && pc + 1 + f.jf < |prog|)
  }

  const MAX_INSTRUCTIONS := 4096

  /** The classic checker's rules for instructions: each is checked, the last returns, and the first
      loads, so the accumulator is loaded before any compare. */
  predicate Sound(prog: seq<Filter>) {
    && prog != [] && IsReturn(prog[|prog| - 1])
    && (IsLoad(prog[0]) || IsReturn(prog[0]))
    && forall pc :: 0 <= pc < |prog| ==> CheckedAt(prog, pc)
  }

  /** What it lets in: sound programs that are not too long. */
  predicate Accepts(prog: seq<Filter>) {
    Sound(prog) && |prog| <= MAX_INSTRUCTIONS
  }

  /** No sound program faults: it returns within as many steps as it has instructions. */
  lemma SoundNeverFaults(prog: seq<Filter>, data: Record)
    requires Sound(prog)
    ensures Evaluate(prog, data).Returns? && Evaluate(prog, data).steps <= |prog|
  {
    if !IsReturn(prog[0]) {
      assert CheckedAt(prog, 0);
      SoundRuns(prog, data, 1, data[prog[0].k / 4], 1);
    }
  }

  lemma {:induction false} SoundRuns(prog: seq<Filter>, data: Record, pc: nat, acc: U32, steps: nat)
    requires Sound(prog) && steps <= pc < |prog|
    ensures var r := Exec(prog, data, pc, Some(acc), steps); r.Returns? && r.steps <= |prog|
    decreases |prog| - pc
  {
    var f := prog[pc];
    assert CheckedAt(prog, pc);
    if IsLoad(f) && !IsReturn(f) {
      SoundRuns(prog, data, pc + 1, data[f.k / 4], steps + 1);
    } else if IsJumpEq(f) && !IsReturn(f) {
      SoundRuns(prog, data, pc + 1 + (if acc == f.k then f.jt else f.jf), acc, steps + 1);
    }
  }
}

module Seccomp {
  import opened Words
  import opened Bpf

  const RET_KILL_PROCESS: U32 := 0x8000_0000
  const RET_ALLOW: U32 := 0x7fff_0000
  const AUDIT_ARCH_X86_64: U32 := 0xc000_003e
  const NR_OFFSET: U32 := 0
  const ARCH_OFFSET: U32 := 4

  /** What the kernel is handed: a 16-bit length and the instructions it points at. */
  datatype Fprog = Fprog(len: U16, filter: seq<Filter>)

  function Nr(data: Record): U32 { data[0] }

  function Arch(data: Record): U32 { data[1] }

  function Prologue(): seq<Filter> {
    [Stmt(LD | W | ABS, ARCH_OFFSET),
     Jump(JMP | JEQ | K, AUDIT_ARCH_X86_64, 1, 0),
     Stmt(RET | K, RET_KILL_PROCESS),
     Stmt(LD | W | ABS, NR_OFFSET)]
  }

  function Pairs(allowed: seq<U64>): (r: seq<Filter>)
    ensures |r| == 2 * |allowed|
  {
    if allowed == [] then []
    else Pairs(allowed[..|allowed| - 1])
         + [Jump(JMP | JEQ | K, allowed[|allowed| - 1] % B32, 0, 1), Stmt(RET | K, RET_ALLOW)]
  }

  function Program(allowed: seq<U64>): seq<Filter> {
    Prologue() + Pairs(allowed) + [Stmt(RET | K, RET_KILL_PROCESS)]
  }

  /** The kernel sees the first len instructions. */
  function Installed(p: Fprog): seq<Filter> {
    if p.len <= |p.filter| then p.filter[..p.len] else p.filter
  }

  /** buildSeccompProgram. The length field keeps only 16 bits of the instruction count. */
  method BuildSeccompProgram(allowed: seq<U64>) returns (p: Fprog)
    ensures p.filter == Program(allowed) && p.len == (5 + 2 * |allowed|) % 0x1_0000
    ensures Emitted(allowed, p.filter)
  {
    EmittedIs(allowed);
    hide Emitted;
    var filters: seq<Filter> := [];
    filters := filters + Prologue();
    for i := 0 to |allowed|
      invariant filters == Prologue() + Pairs(allowed[..i])
    {
      filters := filters + [Jump(JMP | JEQ | K, allowed[i] % B32, 0, 1), Stmt(RET | K, RET_ALLOW)];
      assert allowed[..i + 1][..i] == allowed[..i];
    }
    assert allowed[..|allowed|] == allowed;
    filters := filters + [Stmt(RET | K, RET_KILL_PROCESS)];
    return Fprog(|filters| % B16, filters);
  }

  // ---- meaning ----

  predicate Lists(allowed: seq<U64>, nr: U32) {
    exists i :: 0 <= i < |allowed| && allowed[i] % B32 == nr
  }

  /** Position of the first entry equal to nr as a uint32, or the length of the list. */
  function FirstMatch(allowed: seq<U64>, nr: U32, from: nat): (i: nat)
    requires from <= |allowed|
    ensures from <= i <= |allowed|
    ensures i < |allowed| ==> allowed[i] % B32 == nr
    ensures forall j :: from <= j < i ==> allowed[j] % B32 != nr
    decreases |allowed| - from
  {
    if from == |allowed| || allowed[from] % B32 == nr then from else FirstMatch(allowed, nr, from + 1)
  }

  lemma {:induction false} PairAt(allowed: seq<U64>, i: nat)
    requires i < |allowed|
    ensures Pairs(allowed)[2 * i] == Jump(JMP | JEQ | K, allowed[i] % B32, 0, 1)
    ensures Pairs(allowed)[2 * i + 1] == Stmt(RET | K, RET_ALLOW)
    decreases |allowed|
  {
    if i < |allowed| - 1 {
      PairAt(allowed[..|allowed| - 1], i);
    }
  }

  /** The instructions in numbers: operation code, the two jumps, and the constant. Codes 0x20, 0x15
      and 0x06 load a word, compare, and return. */
  ghost predicate Emitted(allowed: seq<U64>, filter: seq<Filter>) {
    var n := |allowed|;
    && |filter| == 5 + 2 * n
    && filter[0] == Filter(0x20, 0, 0, 4)
    && filter[1] == Filter(0x15, 1, 0, 0xc000_003e)
    && filter[2] == Filter(0x06, 0, 0, 0x8000_0000)
    && filter[3] == Filter(0x20, 0, 0, 0)
    && (forall i :: 0 <= i < n ==>
          && filter[4 + 2 * i] == Filter(0x15, 0, 1, allowed[i] % 0x1_0000_0000)
          && filter[5 + 2 * i] == Filter(0x06, 0, 0, 0x7fff_0000))
    && filter[4 + 2 * n] == Filter(0x06, 0, 0, 0x8000_0000)
  }

  lemma EmittedIs(allowed: seq<U64>)
    ensures Emitted(allowed, Program(allowed))
  {
    var n := |allowed|;
    assert forall i :: 0 <= i < 4 ==> Program(allowed)[i] == Prologue()[i];
    forall i | 0 <= i < n
      ensures Program(allowed)[4 + 2 * i] == Filter(0x15, 0, 1, allowed[i] % 0x1_0000_0000)
           && Program(allowed)[5 + 2 * i] == Filter(0x06, 0, 0, 0x7fff_0000)
    {
      ProgramAt(allowed, i);
    }
  }

  lemma ProgramAt(allowed: seq<U64>, i: nat)
    requires i < |allowed|
    ensures Program(allowed)[4 + 2 * i] == Jump(JMP | JEQ | K, allowed[i] % B32, 0, 1)
    ensures Program(allowed)[5 + 2 * i] == Stmt(RET | K, RET_ALLOW)
  {
    PairAt(allowed, i);
  }

  /** The scan from entry i: one compare per entry, then a return. */
  lemma {:induction false} ScanMeaning(allowed: seq<U64>, data: Record, i: nat, steps: nat)
    requires i <= |allowed|
    ensures var first := FirstMatch(allowed, Nr(data), i);
            Exec(Program(allowed), data, 4 + 2 * i, Some(Nr(data)), steps)
            == if first < |allowed| then Returns(0x7fff_0000, steps + (first - i) + 2)
               else Returns(0x8000_0000, steps + (|allowed| - i) + 1)
    decreases |allowed| - i
  {
    var prog := Program(allowed);
    if i < |allowed| {
      ProgramAt(allowed, i);
      if allowed[i] % B32 != Nr(data) {
        ScanMeaning(allowed, data, i + 1, steps + 1);
      }
    }
  }

  lemma PrologueRuns(prog: seq<Filter>, data: Record)
    requires |prog| > 4 && prog[..4] == Prologue()
    ensures Bpf.Evaluate(prog, data)
         == if data[1] != 0xc000_003e then Returns(0x8000_0000, 3) else Exec(prog, data, 4, Some(data[0]), 3)
  {
    assert prog[0] == Prologue()[0] && prog[1] == Prologue()[1] && prog[2] == Prologue()[2] && prog[3] == Prologue()[3];
    assert Exec(prog, data, 2, Some(Arch(data)), 2) == Returns(RET_KILL_PROCESS, 3);
    assert Exec(prog, data, 3, Some(Arch(data)), 2) == Exec(prog, data, 4, Some(Nr(data)), 3);
    assert Bpf.Evaluate(prog, data) == Exec(prog, data, 1, Some(Arch(data)), 1);
  }

  /** Compiler correctness with exact cost, for an allow-list of any length and any record: 3 steps
      on a foreign architecture, i + 5 when entry i is the first match, n + 4 when none matches. */
  lemma ProgramMeaning(allowed: seq<U64>, data: Record)
    ensures var first := FirstMatch(allowed, data[0], 0);
            Bpf.Evaluate(Program(allowed), data)
            == if data[1] != 0xc000_003e then Returns(0x8000_0000, 3)
               else if first < |allowed| then Returns(0x7fff_0000, first + 5)
               else Returns(0x8000_0000, |allowed| + 4)
  {
    hide Exec, Pairs, Prologue, FirstMatch;
    assert Program(allowed)[..4] == Prologue() by { PrologueLength(); }
    PrologueLength();
    PrologueRuns(Program(allowed), data);
    ScanMeaning(allowed, data, 0, 3);
  }

  lemma PrologueLength()
    ensures |Prologue()| == 4
  {}

  /** A record is allowed exactly when its architecture matches and its number is listed. */
  lemma AllowedIffListed(allowed: seq<U64>, data: Record)
    ensures var r := Bpf.Evaluate(Program(allowed), data);
            var listed := exists i :: 0 <= i < |allowed| && allowed[i] % 0x1_0000_0000 == data[0];
            r.Returns? && r.action == if data[1] == 0xc000_003e && listed then 0x7fff_0000 else 0x8000_0000
  {
    ProgramMeaning(allowed, data);
    var first := FirstMatch(allowed, Nr(data), 0);
    if first < |allowed| {
      assert allowed[first] % B32 == Nr(data);
    }
  }

  /** Order, duplicates and high halves do not matter: lists with the same numbers as uint32 act
      the same on every record, and lists that act the same have the same numbers. */
  lemma MeaningIsTheSet(a: seq<U64>, b: seq<U64>)
    ensures (forall nr: U32 :: Lists(a, nr) <==> Lists(b, nr))
       <==> (forall data: Record :: Verdict(Program(a), data) == Verdict(Program(b), data))
  {
    hide Exec, Program;
    forall data: Record
      ensures Verdict(Program(a), data) == Verdict(Program(b), data)
         <==> Arch(data) != AUDIT_ARCH_X86_64 || (Lists(a, Nr(data)) <==> Lists(b, Nr(data)))
    {
      AllowedIffListed(a, data);
      AllowedIffListed(b, data);
    }
    if !forall nr: U32 :: Lists(a, nr) <==> Lists(b, nr) {
      var nr: U32 :| Lists(a, nr) != Lists(b, nr);
      var data: Record := seq(16, i => if i == 0 then nr else AUDIT_ARCH_X86_64);
      assert Nr(data) == nr && Arch(data) == AUDIT_ARCH_X86_64;
      assert Verdict(Program(a), data) != Verdict(Program(b), data);
    }
  }

  // ---- the checker, and the 16-bit length ----

  lemma InstructionsChecked(allowed: seq<U64>, pc: nat)
    requires pc < |Program(allowed)|
    ensures CheckedAt(Program(allowed), pc)
  {
    var prog := Program(allowed);
    if pc < 4 {
      assert prog[pc] == Prologue()[pc];
    } else if pc < |prog| - 1 {
      ProgramAt(allowed, (pc - 4) / 2);
    }
  }

  /** Every compiled program is sound, and accepted exactly when it is not too long. */
  lemma ProgramAccepted(allowed: seq<U64>)
    ensures Sound(Program(allowed))
    ensures Accepts(Program(allowed)) <==> 5 + 2 * |allowed| <= 4096
  {
    forall pc | 0 <= pc < |Program(allowed)| ensures CheckedAt(Program(allowed), pc) {
      InstructionsChecked(allowed, pc);
    }
    assert Program(allowed)[0] == Prologue()[0];
  }

  /** What is installed is sound exactly when the instruction count fits its field, since a longer
      list is cut after an instruction that does not return; it is accepted exactly when the count
      is within the checker's limit, so a wrapped length never slips through. */
  lemma InstalledAcceptedIff(allowed: seq<U64>, p: Fprog)
    requires p == Fprog((5 + 2 * |allowed|) % B16, Program(allowed))
    ensures Sound(Installed(p)) <==> 5 + 2 * |allowed| < 0x1_0000
    ensures Accepts(Installed(p)) <==> 5 + 2 * |allowed| <= 4096
  {
    var total := 5 + 2 * |allowed|;
    if total < B16 {
      assert Installed(p) == Program(allowed);
      ProgramAccepted(allowed);
    } else {
      var len := p.len;
      assert len % 2 == 1 && len < total;
      var last := Program(allowed)[len - 1];
      assert Installed(p)[len - 1] == last;
      if len >= 5 {
        ProgramAt(allowed, (len - 5) / 2);
      } else if len == 3 {
        assert Installed(p)[1] == Prologue()[1];
        assert Sound(Installed(p)) ==> CheckedAt(Installed(p), 1);
      } else {
        assert last == Prologue()[0];
      }
    }
  }

  /** The two together: a filter the checker finds sound does what the allow-list says. */
  lemma AcceptedFilterMeaning(allowed: seq<U64>, p: Fprog, data: Record)
    requires p == Fprog((5 + 2 * |allowed|) % B16, Program(allowed)) && Sound(Installed(p))
    ensures Verdict(Installed(p), data)
         == Some(if data[1] == 0xc000_003e && exists i :: 0 <= i < |allowed| && allowed[i] % 0x1_0000_0000 == data[0]
                 then 0x7fff_0000 else 0x8000_0000)
  {
    InstalledAcceptedIff(allowed, p);
    assert Installed(p) == Program(allowed);
    AllowedIffListed(allowed, data);
  }
}
