/**
 System calls: a typed call is written into a five-word record, pushed on the user stack in
 reverse, copied to the kernel stack by the call gate, and read back from the frame there.
 */
module Syscall {
  import opened Options

  type Word = w: int | 0 <= w < 0x1_0000_0000
  type Int32 = i: int | -0x8000_0000 <= i < 0x8000_0000

  /** A pointer cast to `int`: the same 32 bits. */
  function AsInt(w: Word): (i: Int32)
    ensures (w - i) % 0x1_0000_0000 == 0
  {
    if w < 0x8000_0000 then w else w - 0x1_0000_0000
  }

  /** The 32-bit word that holds an `int`. */
  function AsWord(i: Int32): (w: Word)
    ensures AsInt(w) == i && (w - i) % 0x1_0000_0000 == 0
  {
    if i >= 0 then i else i + 0x1_0000_0000
  }

  lemma PointerRoundTrip(w: Word)
    ensures AsWord(AsInt(w)) == w
  {
  }

  /** The typed wrappers; pointers are words, everything else an `int`. */
  datatype Call =
    | Msleep(ms: Int32) | Getpid | Fork | Yield
    | PrintMsg(fmt: Word, arg: Int32)
    | Execve(name: Word, argv: Word, env: Word)
    | Wait(status: Word) | Exit(code: Int32)
    | Open(name: Word, flags: Int32)
    | Read(file: Int32, ptr: Word, len: Int32) | Write(file: Int32, ptr: Word, len: Int32)
    | Close(file: Int32) | Lseek(file: Int32, offset: Int32, whence: Int32)
    | Isatty(file: Int32) | Sbrk(incr: Int32) | Fstat(file: Int32, st: Word)
    | Dup(file: Int32) | Ioctl(fd: Int32, cmd: Int32, a0: Int32, a1: Int32)
    | Opendir(path: Word, dir: Word) | Readdir(dir: Word, entry: Word) | Closedir(dir: Word)
    | Unlink(path: Word)

  /** `syscall_args_t`. */
  datatype Args = Args(id: Int32, arg0: Int32, arg1: Int32, arg2: Int32, arg3: Int32)

  /** The call numbers of `core/syscall.h`. */
  const SYS_MSLEEP := 0
  const SYS_GETPID := 1
  const SYS_FORK := 2
  const SYS_EXECVE := 3
  const SYS_YIELD := 4
  const SYS_EXIT := 5
  const SYS_WAIT := 6
  const SYS_OPEN := 50
  const SYS_READ := 51
  const SYS_WRITE := 52
  const SYS_CLOSE := 53
  const SYS_LSEEK := 54
  const SYS_ISATTY := 55
  const SYS_SBRK := 56
  const SYS_FSTAT := 57
  const SYS_DUP := 58
  const SYS_IOCTL := 59
  const SYS_OPENDIR := 60
  const SYS_READDIR := 61
  const SYS_CLOSEDIR := 62
  const SYS_UNLINK := 63
  const SYS_PRINTMSG := 100

  const PARAM_COUNT := 5

  /** `msleep` of nothing returns at once; every other wrapper enters the kernel. */
  predicate EntersKernel(c: Call) {
    c.Msleep? ==> c.ms > 0
  }

  /** A wrapper fills in its own fields; the others keep whatever was on the stack. */
  function Encode(c: Call, junk: Args): Args {
    match c
    case Msleep(ms) => junk.(id := SYS_MSLEEP, arg0 := ms)
    case Getpid => junk.(id := SYS_GETPID)
    case Fork => junk.(id := SYS_FORK)
    case Execve(n, argv, env) => junk.(id := SYS_EXECVE, arg0 := AsInt(n), arg1 := AsInt(argv), arg2 := AsInt(env))
    case Yield => junk.(id := SYS_YIELD)
    case Exit(code) => junk.(id := SYS_EXIT, arg0 := code)
    case Wait(status) => junk.(id := SYS_WAIT, arg0 := AsInt(status))
    case Open(n, flags) => junk.(id := SYS_OPEN, arg0 := AsInt(n), arg1 := flags)
    case Read(file, ptr, len) => junk.(id := SYS_READ, arg0 := file, arg1 := AsInt(ptr), arg2 := len)
    case Write(file, ptr, len) => junk.(id := SYS_WRITE, arg0 := file, arg1 := AsInt(ptr), arg2 := len)
    case Close(file) => junk.(id := SYS_CLOSE, arg0 := file)
    case Lseek(file, offset, whence) => junk.(id := SYS_LSEEK, arg0 := file, arg1 := offset, arg2 := whence)
    case Isatty(file) => junk.(id := SYS_ISATTY, arg0 := file)
    case Sbrk(incr) => junk.(id := SYS_SBRK, arg0 := incr)
    case Fstat(file, st) => junk.(id := SYS_FSTAT, arg0 := file, arg1 := AsInt(st))
    case Dup(file) => junk.(id := SYS_DUP, arg0 := file)
    case Ioctl(fd, cmd, a0, a1) => junk.(id := SYS_IOCTL, arg0 := fd, arg1 := cmd, arg2 := a0, arg3 := a1)
    case Opendir(path, dir) => junk.(id := SYS_OPENDIR, arg0 := AsInt(path), arg1 := AsInt(dir))
    case Readdir(dir, entry) => junk.(id := SYS_READDIR, arg0 := AsInt(dir), arg1 := AsInt(entry))
    case Closedir(dir) => junk.(id := SYS_CLOSEDIR, arg0 := AsInt(dir))
    case Unlink(path) => junk.(id := SYS_UNLINK, arg0 := AsInt(path))
    case PrintMsg(fmt, arg) => junk.(id := SYS_PRINTMSG, arg0 := AsInt(fmt), arg1 := arg)
  }

  /** What the kernel makes of a frame, from the call number and the arguments it reads. */
  function Decode(a: Args): Option<Call> {
    var p0, p1, p2 := AsWord(a.arg0), AsWord(a.arg1), AsWord(a.arg2);
    match a.id
    case 0 => Some(Msleep(a.arg0))
    case 1 => Some(Getpid)
    case 2 => Some(Fork)
    case 3 => Some(Execve(p0, p1, p2))
    case 4 => Some(Yield)
    case 5 => Some(Exit(a.arg0))
    case 6 => Some(Wait(p0))
    case 50 => Some(Open(p0, a.arg1))
    case 51 => Some(Read(a.arg0, p1, a.arg2))
    case 52 => Some(Write(a.arg0, p1, a.arg2))
    case 53 => Some(Close(a.arg0))
    case 54 => Some(Lseek(a.arg0, a.arg1, a.arg2))
    case 55 => Some(Isatty(a.arg0))
    case 56 => Some(Sbrk(a.arg0))
    case 57 => Some(Fstat(a.arg0, p1))
    case 58 => Some(Dup(a.arg0))
    case 59 => Some(Ioctl(a.arg0, a.arg1, a.arg2, a.arg3))
    case 60 => Some(Opendir(p0, p1))
    case 61 => Some(Readdir(p0, p1))
    case 62 => Some(Closedir(p0))
    case 63 => Some(Unlink(p0))
    case 100 => Some(PrintMsg(p0, a.arg1))
    case _ => None
  }

  /** Which word of the record holds what, call by call: the numbers of `core/syscall.h` and
      the arguments in the order of the kernel's handlers. The other words are left alone. */
  lemma RecordWords(c: Call, j: Args)
    ensures Encode(c, j) ==
            match c
            case Msleep(ms) => Args(0, ms, j.arg1, j.arg2, j.arg3)
            case Getpid => Args(1, j.arg0, j.arg1, j.arg2, j.arg3)
            case Fork => Args(2, j.arg0, j.arg1, j.arg2, j.arg3)
            case Execve(n, argv, env) => Args(3, AsInt(n), AsInt(argv), AsInt(env), j.arg3)
            case Yield => Args(4, j.arg0, j.arg1, j.arg2, j.arg3)
            case Exit(code) => Args(5, code, j.arg1, j.arg2, j.arg3)
            case Wait(status) => Args(6, AsInt(status), j.arg1, j.arg2, j.arg3)
            case Open(n, flags) => Args(50, AsInt(n), flags, j.arg2, j.arg3)
            case Read(file, ptr, len) => Args(51, file, AsInt(ptr), len, j.arg3)
            case Write(file, ptr, len) => Args(52, file, AsInt(ptr), len, j.arg3)
            case Close(file) => Args(53, file, j.arg1, j.arg2, j.arg3)
            case Lseek(file, offset, whence) => Args(54, file, offset, whence, j.arg3)
            case Isatty(file) => Args(55, file, j.arg1, j.arg2, j.arg3)
            case Sbrk(incr) => Args(56, incr, j.arg1, j.arg2, j.arg3)
            case Fstat(file, st) => Args(57, file, AsInt(st), j.arg2, j.arg3)
            case Dup(file) => Args(58, file, j.arg1, j.arg2, j.arg3)
            case Ioctl(fd, cmd, a0, a1) => Args(59, fd, cmd, a0, a1)
            case Opendir(path, dir) => Args(60, AsInt(path), AsInt(dir), j.arg2, j.arg3)
            case Readdir(dir, entry) => Args(61, AsInt(dir), AsInt(entry), j.arg2, j.arg3)
            case Closedir(dir) => Args(62, AsInt(dir), j.arg1, j.arg2, j.arg3)
            case Unlink(path) => Args(63, AsInt(path), j.arg1, j.arg2, j.arg3)
            case PrintMsg(fmt, arg) => Args(100, AsInt(fmt), arg, j.arg2, j.arg3)
  {
  }

  // ---------------------------------------------------------------- stacks

  /** A stack that grows downwards; `sp` is the index of its top word. */
  datatype Stack = Stack(mem: seq<Word>, sp: nat) {

    predicate Room(n: nat) {
      n <= sp <= |mem|
    }

    function Push(w: Word): Stack
      requires Room(1)
    {
      Stack(mem[sp - 1 := w], sp - 1)
    }

    /** Pushes the words of `ws` from the last to the first, so that they lie in order. */
    function PushAll(ws: seq<Word>): Stack
      requires Room(|ws|)
      decreases |ws|
    {
      if ws == [] then this else Push(ws[|ws| - 1]).PushAll(ws[..|ws| - 1])
    }

    /** Arbitrary work below the top of the stack. */
    function Scribble(scratch: seq<Word>): Stack {
      this.(mem := seq(|mem|, i requires 0 <= i < |mem| => if i < sp && i < |scratch| then scratch[i] else mem[i]))
    }

    function Top(n: nat): seq<Word>
      requires sp + n <= |mem|
    {
      mem[sp..sp + n]
    }
  }

  /** Pushing in reverse lays the words out in order and touches nothing at or above the old
      top of the stack. */
  lemma {:induction false} PushAllLayout(s: Stack, ws: seq<Word>)
    requires s.Room(|ws|)
    ensures var s' := s.PushAll(ws);
            && s'.sp == s.sp - |ws| && |s'.mem| == |s.mem|
            && s'.Top(|ws|) == ws
            && s'.mem[s.sp..] == s.mem[s.sp..]
            && s'.mem[..s'.sp] == s.mem[..s'.sp]
    decreases |ws|
  {
    if ws != [] {
      var n := |ws| - 1;
      var t := s.Push(ws[n]);
      PushAllLayout(t, ws[..n]);
      var s' := s.PushAll(ws);
      assert s'.mem[s.sp - 1] == s'.mem[t.sp..][0] == t.mem[t.sp..][0] == ws[n];
      assert s'.mem[s'.sp..s.sp] == s'.mem[s'.sp..t.sp] + [s'.mem[t.sp]];
      assert ws == ws[..n] + [ws[n]];
      assert s'.mem[s.sp..] == s'.mem[t.sp..][1..] == t.mem[t.sp..][1..];
      assert t.mem[..s'.sp] == s.mem[..s'.sp];
    }
  }

  function Words(a: Args): seq<Word> {
    [AsWord(a.id), AsWord(a.arg0), AsWord(a.arg1), AsWord(a.arg2), AsWord(a.arg3)]
  }

  /** The last word is pushed first. */
  lemma PushAllLast(s: Stack, ws: seq<Word>, n: nat)
    requires 0 < n <= |ws| && s.Room(n)
    ensures s.PushAll(ws[..n]) == s.Push(ws[n - 1]).PushAll(ws[..n - 1])
  {
    assert ws[..n][..n - 1] == ws[..n - 1];
  }

  /** The pushes of `sys_call`. */
  lemma FivePushes(s: Stack, a: Args)
    requires s.Room(PARAM_COUNT)
    ensures s.PushAll(Words(a))
         == s.Push(AsWord(a.arg3)).Push(AsWord(a.arg2)).Push(AsWord(a.arg1)).Push(AsWord(a.arg0)).Push(AsWord(a.id))
  {
    var ws := Words(a);
    assert ws[..5] == ws;
    PushAllLast(s, ws, 5);
    var s4 := s.Push(ws[4]);
    PushAllLast(s4, ws, 4);
    var s3 := s4.Push(ws[3]);
    PushAllLast(s3, ws, 3);
    var s2 := s3.Push(ws[2]);
    PushAllLast(s2, ws, 2);
    PushAllLast(s2.Push(ws[1]), ws, 1);
  }

  function FromWords(ws: seq<Word>): Args
    requires |ws| == PARAM_COUNT
  {
    Args(AsInt(ws[0]), AsInt(ws[1]), AsInt(ws[2]), AsInt(ws[3]), AsInt(ws[4]))
  }

  lemma WordsRoundTrip(a: Args)
    ensures FromWords(Words(a)) == a
  {
  }

  /** The far pointers that the gate saves: where to return to and the user stack. */
  datatype Linkage = Linkage(eip: Word, cs: Word, ss: Word)

  /** What a far call through the gate pushes on the kernel stack, lowest word first: the
      return address, the copied parameters, and the user's stack pointer. */
  function GateWords(user: Stack, link: Linkage): seq<Word>
    requires user.sp + PARAM_COUNT <= |user.mem| < 0x1_0000_0000
  {
    [link.eip, link.cs] + user.Top(PARAM_COUNT) + [user.sp, link.ss]
  }

  const FRAME_SIZE := 9

  lemma {:induction false} PushAllConcat(s: Stack, x: seq<Word>, y: seq<Word>)
    requires s.Room(|x| + |y|)
    ensures s.PushAll(y).Room(|x|)
    ensures s.PushAll(x + y) == s.PushAll(y).PushAll(x)
    decreases |y|
  {
    if y == [] {
      assert x + y == x;
    } else {
      var n := |y| - 1;
      assert (x + y)[..|x + y| - 1] == x + y[..n];
      PushAllConcat(s.Push(y[n]), x, y[..n]);
    }
  }

  lemma TwoPushes(s: Stack, a: Word, b: Word)
    requires s.Room(2)
    ensures s.PushAll([a, b]) == s.Push(b).Push(a)
  {
    assert [a, b][..2] == [a, b] && [a, b][..0] == [];
    PushAllLast(s, [a, b], 2);
    PushAllLast(s.Push(b), [a, b], 1);
  }

  /** The order in which the gate fills the frame. */
  lemma GatePushes(k: Stack, u: Stack, link: Linkage)
    requires k.Room(FRAME_SIZE) && u.sp + PARAM_COUNT <= |u.mem| < 0x1_0000_0000
    ensures var k2 := k.Push(link.ss).Push(u.sp);
            && k2.Room(PARAM_COUNT + 2)
            && k2.PushAll(u.Top(PARAM_COUNT)).Room(2)
            && k.PushAll(GateWords(u, link)) == k2.PushAll(u.Top(PARAM_COUNT)).Push(link.cs).Push(link.eip)
  {
    var top := u.Top(PARAM_COUNT);
    PushAllConcat(k, [link.eip, link.cs] + top, [u.sp, link.ss]);
    TwoPushes(k, u.sp, link.ss);
    var k2 := k.Push(link.ss).Push(u.sp);
    PushAllConcat(k2, [link.eip, link.cs], top);
    TwoPushes(k2.PushAll(top), link.eip, link.cs);
  }

  /** One processor's two stacks. */
  datatype Machine = Machine(user: Stack, kernel: Stack) {

    predicate Ready() {
      && user.Room(PARAM_COUNT) && |user.mem| < 0x1_0000_0000
      && kernel.Room(FRAME_SIZE)
    }

    /** `sys_call` up to the first instruction of the kernel. */
    function Enter(a: Args, link: Linkage): Machine
      requires Ready()
    {
      var u := user.PushAll(Words(a));
      PushAllLayout(user, Words(a));
      Machine(u, kernel.PushAll(GateWords(u, link)))
    }

    /** The arguments as the kernel finds them in its frame. */
    function Frame(): Args
      requires kernel.sp + FRAME_SIZE <= |kernel.mem|
    {
      FromWords(kernel.Top(FRAME_SIZE)[2..2 + PARAM_COUNT])
    }

    /** The far return that releases the parameters from both stacks. */
    function Leave(): Machine
      requires kernel.sp + FRAME_SIZE <= |kernel.mem|
    {
      var savedSp := kernel.mem[kernel.sp + 2 + PARAM_COUNT];
      Machine(user.(sp := savedSp + PARAM_COUNT), kernel.(sp := kernel.sp + FRAME_SIZE))
    }
  }

  /** The kernel finds exactly the record that was passed, and returning restores both stack
      pointers and everything at or above them. */
  lemma EnterLeave(m: Machine, a: Args, link: Linkage)
    requires m.Ready()
    ensures var e := m.Enter(a, link);
            && |e.user.mem| == |m.user.mem| && |e.kernel.mem| == |m.kernel.mem|
            && e.kernel.sp + FRAME_SIZE <= |e.kernel.mem|
            && e.Frame() == a
            && e.user.sp == m.user.sp - PARAM_COUNT
            && e.Leave().user.sp == m.user.sp && e.Leave().kernel.sp == m.kernel.sp
            && e.user.mem[m.user.sp..] == m.user.mem[m.user.sp..]
            && e.kernel.mem[m.kernel.sp..] == m.kernel.mem[m.kernel.sp..]
  {
    var u := m.user.PushAll(Words(a));
    PushAllLayout(m.user, Words(a));
    var ws := GateWords(u, link);
    assert |ws| == FRAME_SIZE;
    PushAllLayout(m.kernel, ws);
    var e := m.Enter(a, link);
    assert e.kernel.Top(FRAME_SIZE) == ws;
    assert ws[2..2 + PARAM_COUNT] == Words(a);
    WordsRoundTrip(a);
    assert e.kernel.mem[e.kernel.sp + 7] == e.kernel.Top(FRAME_SIZE)[7] == u.sp;
  }

  /** The words from `sp` on are the end of a `syscall_frame_t`. */
  predicate RawFrame(mem: seq<Word>, sp: nat, a: Args, link: Linkage, userSp: int) {
    && sp + 9 <= |mem| && 0 <= userSp < 0x1_0000_0000
    && mem[sp..sp + 9] == [link.eip, link.cs,
                           AsWord(a.id), AsWord(a.arg0), AsWord(a.arg1), AsWord(a.arg2), AsWord(a.arg3),
                           userSp, link.ss]
  }

  /** The frame, word by word: return address, number and arguments in the order of the
      record, user stack. */
  lemma FrameLayout(m: Machine, a: Args, link: Linkage)
    requires m.Ready()
    ensures var e := m.Enter(a, link);
            && RawFrame(e.kernel.mem, e.kernel.sp, a, link, e.user.sp)
            && e.user.sp == m.user.sp - 5 && e.kernel.sp == m.kernel.sp - 9
  {
    var u := m.user.PushAll(Words(a));
    PushAllLayout(m.user, Words(a));
    var ws := GateWords(u, link);
    PushAllLayout(m.kernel, ws);
    assert m.Enter(a, link).kernel.Top(9) == ws;
  }

  /** Unset fields never matter: what the kernel decodes is the call that was made. */
  lemma EncodeDecode(c: Call, junk: Args)
    ensures Decode(Encode(c, junk)) == Some(c)
  {
    if c.Execve? { PointerRoundTrip(c.name); PointerRoundTrip(c.argv); PointerRoundTrip(c.env); }
  }

  // ---------------------------------------------------------------- sequences of calls

  /** A call, the record's previous contents, the linkage, and the kernel stack below the
      frame as the kernel's own work leaves it. */
  datatype Request = Request(call: Call, junk: Args, link: Linkage, scratch: seq<Word>)

  /** One wrapper from start to return. */
  function Perform(m: Machine, r: Request): Machine
    requires m.Ready()
  {
    if !EntersKernel(r.call) then m
    else
      var e := m.Enter(Encode(r.call, r.junk), r.link);
      EnterLeave(m, Encode(r.call, r.junk), r.link);
      Machine(e.user, e.kernel.Scribble(r.scratch)).Leave()
  }

  /** Nothing at or above either stack pointer differs. */
  ghost predicate SameAbove(m: Machine, m': Machine) {
    && m'.user.sp == m.user.sp && m'.kernel.sp == m.kernel.sp
    && |m'.user.mem| == |m.user.mem| && |m'.kernel.mem| == |m.kernel.mem|
    && m.user.sp <= |m.user.mem| && m.kernel.sp <= |m.kernel.mem|
    && m'.user.mem[m.user.sp..] == m.user.mem[m.user.sp..]
    && m'.kernel.mem[m.kernel.sp..] == m.kernel.mem[m.kernel.sp..]
  }

  lemma PerformKeepsStacks(m: Machine, r: Request)
    requires m.Ready()
    ensures SameAbove(m, Perform(m, r)) && Perform(m, r).Ready()
  {
    if EntersKernel(r.call) {
      var a := Encode(r.call, r.junk);
      var e := m.Enter(a, r.link);
      EnterLeave(m, a, r.link);
      assert e.kernel.Scribble(r.scratch).mem[m.kernel.sp..] == e.kernel.mem[m.kernel.sp..];
    }
  }

  function PerformAll(m: Machine, rs: seq<Request>): Machine
    requires m.Ready()
    decreases |rs|
  {
    if rs == [] then m
    else
      PerformKeepsStacks(m, rs[0]);
      PerformAll(Perform(m, rs[0]), rs[1..])
  }

  /** The calls that the kernel decodes from its frames, in order. */
  function Received(m: Machine, rs: seq<Request>): seq<Option<Call>>
    requires m.Ready()
    decreases |rs|
  {
    if rs == [] then []
    else
      PerformKeepsStacks(m, rs[0]);
      var rest := Received(Perform(m, rs[0]), rs[1..]);
      if !EntersKernel(rs[0].call) then rest
      else
        EnterLeave(m, Encode(rs[0].call, rs[0].junk), rs[0].link);
        [Decode(m.Enter(Encode(rs[0].call, rs[0].junk), rs[0].link).Frame())] + rest
  }

  /** The calls made, less every `msleep` of zero or less. */
  function Issued(rs: seq<Request>): seq<Option<Call>> {
    if rs == [] then []
    else
      match rs[0].call
      case Msleep(ms) => (if ms <= 0 then [] else [Some(Msleep(ms))]) + Issued(rs[1..])
      case c => [Some(c)] + Issued(rs[1..])
  }

  /** Stack discipline: after any sequence of system calls both stacks are back where they
      were, and no word at or above them has changed. */
  lemma {:induction false} StackDiscipline(m: Machine, rs: seq<Request>)
    requires m.Ready()
    ensures SameAbove(m, PerformAll(m, rs))
    decreases |rs|
  {
    if rs != [] {
      PerformKeepsStacks(m, rs[0]);
      StackDiscipline(Perform(m, rs[0]), rs[1..]);
    }
  }

  /** Marshalling round trip over any sequence: the kernel receives exactly the calls that
      were made, in order, whatever was left in unset fields and on the stacks. */
  lemma {:induction false} KernelReceivesCalls(m: Machine, rs: seq<Request>)
    requires m.Ready()
    ensures Received(m, rs) == Issued(rs)
    decreases |rs|
  {
    if rs != [] {
      PerformKeepsStacks(m, rs[0]);
      KernelReceivesCalls(Perform(m, rs[0]), rs[1..]);
      EncodeDecode(rs[0].call, rs[0].junk);
      EnterLeave(m, Encode(rs[0].call, rs[0].junk), rs[0].link);
    }
  }

  // ---------------------------------------------------------------- in place

  /** The two stacks as memory that `push` and the gate write to. */
  class Cpu {
    const userMem: array<Word>
    const kernelMem: array<Word>
    var esp: nat
    var kernelEsp: nat

    ghost function State(): Machine
      reads this, userMem, kernelMem
    {
      Machine(Stack(userMem[..], esp), Stack(kernelMem[..], kernelEsp))
    }

    constructor (u: array<Word>, k: array<Word>)
      requires u.Length < 0x1_0000_0000
      ensures userMem == u && kernelMem == k && esp == u.Length && kernelEsp == k.Length
    {
      userMem, kernelMem := u, k;
      esp, kernelEsp := u.Length, k.Length;
    }

    method Push(w: Word)
      requires 0 < esp <= userMem.Length && userMem != kernelMem
      modifies this`esp, userMem
      ensures State() == old(State()).(user := old(State()).user.Push(w))
    {
      esp := esp - 1;
      userMem[esp] := w;
    }

    method KernelPush(w: Word)
      requires 0 < kernelEsp <= kernelMem.Length && userMem != kernelMem
      modifies this`kernelEsp, kernelMem
      ensures State() == old(State()).(kernel := old(State()).kernel.Push(w))
    {
      kernelEsp := kernelEsp - 1;
      kernelMem[kernelEsp] := w;
    }

    /** The processor's copy of the parameters, from the last to the first. */
    method CopyParameters()
      requires userMem != kernelMem && esp + PARAM_COUNT <= userMem.Length
      requires PARAM_COUNT <= kernelEsp <= kernelMem.Length
      modifies this`kernelEsp, kernelMem
      ensures State() == old(State()).(kernel := old(State()).kernel.PushAll(old(State()).user.Top(PARAM_COUNT)))
    {
      ghost var m := State();
      ghost var ws := m.user.Top(PARAM_COUNT);
      assert ws[..PARAM_COUNT] == ws;
      var i := PARAM_COUNT;
      while i > 0
        invariant 0 <= i <= PARAM_COUNT && i <= kernelEsp <= kernelMem.Length
        invariant State().user == m.user
        invariant State().kernel.PushAll(ws[..i]) == m.kernel.PushAll(ws)
      {
        PushAllLast(State().kernel, ws, i);
        i := i - 1;
        assert ws[i] == userMem[..][esp + i];
        KernelPush(userMem[esp + i]);
      }
    }

    /** A far call through the gate: user stack, parameters, return address. */
    method Gate(link: Linkage)
      requires userMem != kernelMem && esp + PARAM_COUNT <= userMem.Length < 0x1_0000_0000
      requires FRAME_SIZE <= kernelEsp <= kernelMem.Length
      modifies this`kernelEsp, kernelMem
      ensures State() == old(State()).(kernel := old(State()).kernel.PushAll(GateWords(old(State()).user, link)))
    {
      ghost var k, u := State().kernel, State().user;
      GatePushes(k, u, link);
      KernelPush(link.ss);
      KernelPush(esp);
      PushAllLayout(State().kernel, u.Top(PARAM_COUNT));
      CopyParameters();
      KernelPush(link.cs);
      KernelPush(link.eip);
    }

    /** The pushes of `sys_call`, then the call through the gate: the kernel's frame holds
        exactly the record. */
    method SysCall(a: Args, link: Linkage)
      requires State().Ready() && userMem != kernelMem
      modifies this, userMem, kernelMem
      ensures State() == old(State()).Enter(a, link)
      ensures State().kernel.sp + FRAME_SIZE <= |State().kernel.mem| && State().Frame() == a
      ensures RawFrame(kernelMem[..], kernelEsp, a, link, esp) && esp == old(esp) - 5 && kernelEsp == old(kernelEsp) - 9
    {
      EnterLeave(State(), a, link);
      FrameLayout(State(), a, link);
      PushAllLayout(State().user, Words(a));
      PushRecord(a);
      Gate(link);
    }

    method PushRecord(a: Args)
      requires State().Ready() && userMem != kernelMem
      modifies this`esp, userMem
      ensures State() == old(State()).(user := old(State()).user.PushAll(Words(a)))
    {
      FivePushes(State().user, a);
      Push(AsWord(a.arg3));
      Push(AsWord(a.arg2));
      Push(AsWord(a.arg1));
      Push(AsWord(a.arg0));
      Push(AsWord(a.id));
    }

    /** A typed wrapper up to the kernel's entry; `junk` is what the record held before. */
    method Wrapper(c: Call, junk: Args, link: Linkage) returns (entered: bool)
      requires State().Ready() && userMem != kernelMem
      modifies this, userMem, kernelMem
      ensures !entered <==> c.Msleep? && c.ms <= 0
      ensures !entered ==> State() == old(State())
      ensures entered ==> && State() == old(State()).Enter(Encode(c, junk), link)
                          && State().kernel.sp + FRAME_SIZE <= |State().kernel.mem|
                          && Decode(State().Frame()) == Some(c)
                          && RawFrame(kernelMem[..], kernelEsp, Encode(c, junk), link, esp)
    {
      entered := EntersKernel(c);
      if entered {
        EncodeDecode(c, junk);
        SysCall(Encode(c, junk), link);
      }
    }

    /** The far return that gives up the frame and the five parameters. */
    method FarReturn()
      requires State().kernel.sp + FRAME_SIZE <= |State().kernel.mem|
      modifies this`esp, this`kernelEsp
      ensures State() == old(State()).Leave()
      ensures esp - 5 == old(kernelMem[kernelEsp + 7]) && kernelEsp == old(kernelEsp) + 9
    {
      esp := kernelMem[kernelEsp + 2 + PARAM_COUNT] + PARAM_COUNT;
      kernelEsp := kernelEsp + FRAME_SIZE;
    }
  }
}
