/** The classic BPF programs installed by scripts/ci/socket_denied_exec.py and
    scripts/ci/inet_socket_deny_exec.py, and an interpreter for them. */
module SeccompFilters {
  import opened Results

  type Word = x: int | 0 <= x < 0x1_0000_0000

  const LD_W_ABS := 0x20
  const JMP_JEQ_K := 0x15
  const JMP_JGE_K := 0x35
  const RET_K := 0x06

  const KILL_PROCESS: Word := 0x80000000
  const ALLOW: Word := 0x7FFF0000
  /** `SECCOMP_RET_ERRNO | EPERM` */
  const DENY: Word := 0x00050001

  const AUDIT_ARCH_X86_64: Word := 0xC000003E
  const X32_SYSCALL_BIT: Word := 0x40000000
  const NR_OFFSET := 0
  const ARCH_OFFSET := 4
  const ARG0_OFFSET := 16
  const SOCKET_SYSCALL := 41
  const AF_INET := 2
  const AF_INET6 := 10

  const DENIED_SYSCALLS: seq<int> :=
    [41, 42, 43, 44, 45, 46, 47, 48, 49, 50, 51, 52, 53, 54, 55, 288, 299, 307]

  datatype Instruction = Instruction(code: int, jt: nat, jf: nat, k: Word)

  /** The constructors of the ctypes structure: `k` keeps 32 bits. */
  function Statement(code: int, value: int): Instruction { Instruction(code, 0, 0, value % 0x1_0000_0000) }

  function Jump(code: int, value: int, onTrue: nat, onFalse: nat): Instruction {
    Instruction(code, onTrue, onFalse, value % 0x1_0000_0000)
  }

  /** `struct seccomp_data` as sixteen little-endian words. */
  type SyscallData = d: seq<Word> | |d| == 16 witness seq(16, _ => 0)

  function Nr(d: SyscallData): Word { d[NR_OFFSET / 4] }
  function Arch(d: SyscallData): Word { d[ARCH_OFFSET / 4] }
  function Arg0(d: SyscallData): Word { d[ARG0_OFFSET / 4] }

  // ----- the machine

  /** The verdict of a run from `pc`, or nothing when the machine gets stuck. */
  function Exec(prog: seq<Instruction>, d: SyscallData, pc: nat, acc: Word): Option<Word>
    decreases |prog| - pc
  {
    if pc >= |prog| then None
    else
      var i := prog[pc];
      if i.code == RET_K then Some(i.k)
      else if i.code == LD_W_ABS then
        if i.k % 4 == 0 && i.k / 4 < 16 then Exec(prog, d, pc + 1, d[i.k / 4]) else None
      else if i.code == JMP_JEQ_K then Exec(prog, d, pc + 1 + (if acc == i.k then i.jt else i.jf), acc)
      else if i.code == JMP_JGE_K then Exec(prog, d, pc + 1 + (if acc >= i.k then i.jt else i.jf), acc)
      else None
  }

  predicate Admissible(prog: seq<Instruction>, pc: nat)
    requires pc < |prog|
  {
    var i := prog[pc];
    || i.code == RET_K
    || (i.code == LD_W_ABS && i.k % 4 == 0 && i.k / 4 < 16)
    || ((i.code == JMP_JEQ_K || i.code == JMP_JGE_K) && pc + 1 + i.jt < |prog| && pc + 1 + i.jf < |prog|)
  }

  /** Known instructions, loads inside the data, jumps forward and inside the program, a return at the end. */
  predicate WellFormed(prog: seq<Instruction>) {
    && prog != []
    && (forall pc :: 0 <= pc < |prog| ==> Admissible(prog, pc))
    && prog[|prog| - 1].code == RET_K
  }

  /** A well-formed program returns on every input from every point. */
  lemma {:induction false} WellFormedReturns(prog: seq<Instruction>, d: SyscallData, pc: nat, acc: Word)
    requires WellFormed(prog) && pc < |prog|
    ensures Exec(prog, d, pc, acc).Some?
    decreases |prog| - pc
  {
    assert Admissible(prog, pc);
    var i := prog[pc];
    if i.code == LD_W_ABS {
      WellFormedReturns(prog, d, pc + 1, d[i.k / 4]);
    } else if i.code == JMP_JEQ_K || i.code == JMP_JGE_K {
      WellFormedReturns(prog, d, pc + 1 + i.jt, acc);
      WellFormedReturns(prog, d, pc + 1 + i.jf, acc);
    }
  }

  // ----- the generated filter

  function Header(): seq<Instruction> {
    [ Statement(LD_W_ABS, ARCH_OFFSET),
      Jump(JMP_JEQ_K, AUDIT_ARCH_X86_64, 1, 0),
      Statement(RET_K, KILL_PROCESS),
      Statement(LD_W_ABS, NR_OFFSET),
      Jump(JMP_JGE_K, X32_SYSCALL_BIT, 0, 1),
      Statement(RET_K, DENY) ]
  }

  /** The instructions for a list of system calls, by position. */
  predicate IsNoNetworkProgram(denied: seq<int>, prog: seq<Instruction>) {
    && |prog| == 7 + 2 * |denied|
    && prog[..6] == Header()
    && (forall i :: 0 <= i < |denied| ==> prog[6 + 2 * i] == Jump(JMP_JEQ_K, denied[i], 0, 1))
    && (forall i :: 0 <= i < |denied| ==> prog[7 + 2 * i] == Statement(RET_K, DENY))
    && prog[|prog| - 1] == Statement(RET_K, ALLOW)
  }

  /** The policy of the filter for a list of system call numbers. */
  function NoNetworkVerdict(denied: seq<int>, d: SyscallData): Word {
    if Arch(d) != AUDIT_ARCH_X86_64 then KILL_PROCESS
    else if Nr(d) >= X32_SYSCALL_BIT || Denies(denied, Nr(d)) then DENY
    else ALLOW
  }

  predicate Denies(denied: seq<int>, nr: Word) {
    exists i :: 0 <= i < |denied| && denied[i] % 0x1_0000_0000 == nr
  }

  /** The instruction list of `_install_no_network_filter`, with what it decides on every input. */
  method NoNetworkFilter(denied: seq<int>) returns (prog: seq<Instruction>)
    ensures WellFormed(prog) && |prog| == 7 + 2 * |denied|
    ensures forall d: SyscallData :: Exec(prog, d, 0, 0) == Some(NoNetworkVerdict(denied, d))
  {
    prog := Header();
    for k := 0 to |denied|
      invariant |prog| == 6 + 2 * k && prog[..6] == Header()
      invariant forall i :: 0 <= i < k ==> prog[6 + 2 * i] == Jump(JMP_JEQ_K, denied[i], 0, 1)
      invariant forall i :: 0 <= i < k ==> prog[7 + 2 * i] == Statement(RET_K, DENY)
    {
      prog := prog + [Jump(JMP_JEQ_K, denied[k], 0, 1), Statement(RET_K, DENY)];
    }
    prog := prog + [Statement(RET_K, ALLOW)];
    NoNetworkWellFormed(denied, prog);
    forall d: SyscallData ensures Exec(prog, d, 0, 0) == Some(NoNetworkVerdict(denied, d)) {
      NoNetworkDecides(denied, prog, d);
    }
  }

  lemma NoNetworkWellFormed(denied: seq<int>, prog: seq<Instruction>)
    requires IsNoNetworkProgram(denied, prog)
    ensures WellFormed(prog)
  {
    forall pc | 0 <= pc < |prog| ensures Admissible(prog, pc) {
      if pc < 6 {
        assert prog[pc] == Header()[pc];
      } else if pc < |prog| - 1 {
        var i := (pc - 6) / 2;
        assert 0 <= i < |denied|;
        if pc % 2 == 0 {
          assert prog[6 + 2 * i] == Jump(JMP_JEQ_K, denied[i], 0, 1) && pc == 6 + 2 * i;
        } else {
          assert prog[7 + 2 * i] == Statement(RET_K, DENY) && pc == 7 + 2 * i;
        }
      }
    }
  }

  /** From the first comparison on, the filter searches the rest of the list. */
  lemma {:induction false} ListDecides(denied: seq<int>, prog: seq<Instruction>, d: SyscallData, i: nat)
    requires IsNoNetworkProgram(denied, prog) && i <= |denied|
    ensures Exec(prog, d, 6 + 2 * i, Nr(d)) == Some(if Denies(denied[i..], Nr(d)) then DENY else ALLOW)
    decreases |denied| - i
  {
    if i < |denied| {
      ListDecides(denied, prog, d, i + 1);
      assert prog[6 + 2 * i] == Jump(JMP_JEQ_K, denied[i], 0, 1);
      assert prog[7 + 2 * i] == Statement(RET_K, DENY);
      assert 6 + 2 * (i + 1) == 8 + 2 * i;
      DeniesStep(denied, i, Nr(d));
    }
  }

  lemma DeniesStep(denied: seq<int>, i: nat, nr: Word)
    requires i < |denied|
    ensures Denies(denied[i..], nr) <==> denied[i] % 0x1_0000_0000 == nr || Denies(denied[i + 1..], nr)
  {
    var a, b := denied[i..], denied[i + 1..];
    assert forall j :: 0 <= j < |b| ==> b[j] == a[j + 1];
    if Denies(a, nr) && denied[i] % 0x1_0000_0000 != nr {
      var j :| 0 <= j < |a| && a[j] % 0x1_0000_0000 == nr;
      assert b[j - 1] == a[j];
    }
    if Denies(b, nr) {
      var j :| 0 <= j < |b| && b[j] % 0x1_0000_0000 == nr;
      assert a[j + 1] == b[j];
    }
    if denied[i] % 0x1_0000_0000 == nr { assert a[0] == denied[i]; }
  }

  lemma NoNetworkDecides(denied: seq<int>, prog: seq<Instruction>, d: SyscallData)
    requires IsNoNetworkProgram(denied, prog)
    ensures Exec(prog, d, 0, 0) == Some(NoNetworkVerdict(denied, d))
  {
    HeaderDecides(prog, d);
    ListDecides(denied, prog, d, 0);
    assert denied[0..] == denied;
  }

  /** The first six instructions, shared by both programs. */
  lemma HeaderDecides(prog: seq<Instruction>, d: SyscallData)
    requires |prog| > 6 && prog[..6] == Header()
    ensures Exec(prog, d, 0, 0) ==
      if Arch(d) != AUDIT_ARCH_X86_64 then Some(KILL_PROCESS)
      else if Nr(d) >= X32_SYSCALL_BIT then Some(DENY)
      else Exec(prog, d, 6, Nr(d))
  {
    var h := Header();
    assert forall i :: 0 <= i < 6 ==> prog[i] == h[i];
    assert Exec(prog, d, 5, Nr(d)) == Some(DENY);
    assert Exec(prog, d, 4, Nr(d)) == if Nr(d) >= X32_SYSCALL_BIT then Some(DENY) else Exec(prog, d, 6, Nr(d));
    assert Exec(prog, d, 3, Arch(d)) == Exec(prog, d, 4, Nr(d));
    assert Exec(prog, d, 2, Arch(d)) == Some(KILL_PROCESS);
    assert Exec(prog, d, 1, Arch(d)) == if Arch(d) == AUDIT_ARCH_X86_64 then Exec(prog, d, 3, Arch(d)) else Exec(prog, d, 2, Arch(d));
  }

  // ----- the hand-laid filter

  const INET_PROGRAM: seq<Instruction> :=
    [ Statement(LD_W_ABS, ARCH_OFFSET),
      Jump(JMP_JEQ_K, AUDIT_ARCH_X86_64, 1, 0),
      Statement(RET_K, KILL_PROCESS),
      Statement(LD_W_ABS, NR_OFFSET),
      Jump(JMP_JGE_K, X32_SYSCALL_BIT, 0, 1),
      Statement(RET_K, DENY),
      Jump(JMP_JEQ_K, SOCKET_SYSCALL, 0, 6),
      Statement(LD_W_ABS, ARG0_OFFSET),
      Jump(JMP_JEQ_K, AF_INET, 0, 1),
      Statement(RET_K, DENY),
      Jump(JMP_JEQ_K, AF_INET6, 0, 1),
      Statement(RET_K, DENY),
      Statement(RET_K, ALLOW),
      Statement(RET_K, ALLOW) ]

  function InetVerdict(d: SyscallData): Word {
    if Arch(d) != AUDIT_ARCH_X86_64 then KILL_PROCESS
    else if Nr(d) >= X32_SYSCALL_BIT then DENY
    else if Nr(d) == SOCKET_SYSCALL && (Arg0(d) == AF_INET || Arg0(d) == AF_INET6) then DENY
    else ALLOW
  }

  lemma InetWellFormed()
    ensures WellFormed(INET_PROGRAM)
  {
    var p := INET_PROGRAM;
    forall pc | 0 <= pc < |p| ensures Admissible(p, pc) {
      if pc < 7 { assert Admissible(p, pc); } else { assert Admissible(p, pc); }
    }
  }

  lemma InetDecides(d: SyscallData)
    ensures Exec(INET_PROGRAM, d, 0, 0) == Some(InetVerdict(d))
  {
    var p := INET_PROGRAM;
    assert p[..6] == Header();
    HeaderDecides(p, d);
    var a := Arg0(d);
    assert Exec(p, d, 12, a) == Some(ALLOW) && Exec(p, d, 11, a) == Some(DENY) && Exec(p, d, 9, a) == Some(DENY);
    assert Exec(p, d, 10, a) == Some(if a == AF_INET6 then DENY else ALLOW);
    assert Exec(p, d, 8, a) == if a == AF_INET then Some(DENY) else Exec(p, d, 10, a);
    assert Exec(p, d, 7, Nr(d)) == Exec(p, d, 8, a);
    assert Exec(p, d, 13, Nr(d)) == Some(ALLOW);
    assert Exec(p, d, 6, Nr(d)) == if Nr(d) == SOCKET_SYSCALL then Exec(p, d, 7, Nr(d)) else Some(ALLOW);
  }

  // ----- comparing the two

  function Strictness(verdict: Word): int {
    if verdict == KILL_PROCESS then 2 else if verdict == ALLOW then 0 else 1
  }

  function SocketCall(family: Word): SyscallData {
    seq(16, i => if i == 1 then AUDIT_ARCH_X86_64 else if i == 0 then SOCKET_SYSCALL else if i == 4 then family else 0)
  }

  /** The hand-laid filter is nowhere stricter than the generated one exactly when `socket` is on the list. */
  lemma InetNoStricterIffSocketListed(denied: seq<int>)
    ensures (forall d: SyscallData :: Strictness(InetVerdict(d)) <= Strictness(NoNetworkVerdict(denied, d)))
       <==> Denies(denied, SOCKET_SYSCALL)
  {
    if !Denies(denied, SOCKET_SYSCALL) {
      var d := SocketCall(AF_INET);
      assert Nr(d) == SOCKET_SYSCALL && Arch(d) == AUDIT_ARCH_X86_64 && Arg0(d) == AF_INET;
      assert Strictness(InetVerdict(d)) > Strictness(NoNetworkVerdict(denied, d));
    }
  }

  /** Both programs as installed: every verdict of the hand-laid one is allowed by the generated one. */
  lemma InstalledFiltersOrdered(prog: seq<Instruction>, d: SyscallData)
    requires IsNoNetworkProgram(DENIED_SYSCALLS, prog)
    ensures Exec(INET_PROGRAM, d, 0, 0).Some? && Exec(prog, d, 0, 0).Some?
    ensures Strictness(Exec(INET_PROGRAM, d, 0, 0).value) <= Strictness(Exec(prog, d, 0, 0).value)
  {
    InetDecides(d);
    NoNetworkDecides(DENIED_SYSCALLS, prog, d);
    assert DENIED_SYSCALLS[0] % 0x1_0000_0000 == SOCKET_SYSCALL;
    InetNoStricterIffSocketListed(DENIED_SYSCALLS);
  }
}
