/**
 Directory streams: `opendir`, `readdir` and `closedir` on a heap whose allocator may fail
 and reuses addresses, and a kernel that may fail and writes into the handle.
 */
module DirStream {
  import opened SerialDevice
  import opened Syscall

  // ---------------------------------------------------------------- layout

  type Name = s: seq<Byte> | |s| == 255 witness seq(255, _ => 0)

  /** `struct dirent`; `pad` is the byte between the name and the size. */
  datatype Dirent = Dirent(index: Int32, kind: Int32, name: Name, pad: Byte, size: Int32) {

    function Bytes(): (bytes: seq<Byte>)
      ensures |bytes| == ENTRY_SIZE
    {
      IntBytes(index) + IntBytes(kind) + name + [pad] + IntBytes(size)
    }
  }

  /** `DIR`: where the stream is, then the entry that `readdir` returns a pointer to. */
  datatype Dir = Dir(index: Int32, entry: Dirent) {

    function Bytes(): (bytes: seq<Byte>)
      ensures |bytes| == DIR_SIZE
    {
      IntBytes(index) + entry.Bytes()
    }
  }

  const DIR_SIZE := 272
  const ENTRY_OFFSET := 4
  const ENTRY_SIZE := 268

  /** An `int` in memory, least significant byte first. */
  function IntBytes(i: Int32): (bytes: seq<Byte>)
    ensures |bytes| == 4
  {
    var w := AsWord(i);
    [(w % 0x100) as Byte, (w / 0x100 % 0x100) as Byte, (w / 0x1_0000 % 0x100) as Byte, (w / 0x100_0000) as Byte]
  }

  /** Reading through a pointer to `int`. */
  function IntAt(mem: seq<Byte>, a: nat): Int32
    requires a + 4 <= |mem|
  {
    AsInt(mem[a] as int + 0x100 * mem[a + 1] as int + 0x1_0000 * mem[a + 2] as int + 0x100_0000 * mem[a + 3] as int)
  }

  /** Reading the fields of the `struct dirent` at `a`, one by one. */
  function DirentAt(mem: seq<Byte>, a: nat): Dirent
    requires a + 268 <= |mem|
  {
    Dirent(IntAt(mem, a), IntAt(mem, a + 4), mem[a + 8..a + 263], mem[a + 263], IntAt(mem, a + 264))
  }

  lemma FourBytes(w: Word)
    ensures w == w % 0x100 + 0x100 * (w / 0x100 % 0x100) + 0x1_0000 * (w / 0x1_0000 % 0x100) + 0x100_0000 * (w / 0x100_0000)
    ensures w / 0x100_0000 < 0x100
  {
    var x := w / 0x100;
    var y := x / 0x100;
    assert w == 0x100 * x + w % 0x100 && x == 0x100 * y + x % 0x100;
    assert w / 0x1_0000 == y && w / 0x100_0000 == y / 0x100;
  }

  lemma IntRoundTrip(mem: seq<Byte>, a: nat, i: Int32)
    requires a + 4 <= |mem| && mem[a..a + 4] == IntBytes(i)
    ensures IntAt(mem, a) == i
  {
    hide AsWord, AsInt;
    var bytes := mem[a..a + 4];
    assert bytes[0] == mem[a] && bytes[1] == mem[a + 1] && bytes[2] == mem[a + 2] && bytes[3] == mem[a + 3];
    FourBytes(AsWord(i));
  }

  /** A part of a part. */
  lemma Nested(mem: seq<Byte>, a: nat, n: nat, from: nat, to: nat)
    requires a + n <= |mem| && from <= to <= n
    ensures mem[a..a + n][from..to] == mem[a + from..a + to]
  {
    var inner, outer := mem[a..a + n][from..to], mem[a + from..a + to];
    assert forall k :: 0 <= k < |inner| ==> inner[k] == outer[k];
  }

  lemma DirentRoundTrip(mem: seq<Byte>, a: nat, e: Dirent)
    requires a + 268 <= |mem| && mem[a..a + 268] == e.Bytes()
    ensures DirentAt(mem, a) == e
  {
    hide IntBytes, IntAt;
    var b := e.Bytes();
    assert b[0..4] == IntBytes(e.index) && b[4..8] == IntBytes(e.kind);
    assert b[8..263] == e.name && b[263] == e.pad && b[264..268] == IntBytes(e.size);
    Nested(mem, a, 268, 0, 4);
    Nested(mem, a, 268, 4, 8);
    Nested(mem, a, 268, 8, 263);
    Nested(mem, a, 268, 264, 268);
    IntRoundTrip(mem, a, e.index);
    IntRoundTrip(mem, a + 4, e.kind);
    IntRoundTrip(mem, a + 264, e.size);
    assert mem[a..a + 268][263] == mem[a + 263];
  }

  /** A stored `DIR` is read back field by field: its index at the address itself, its entry
      four bytes further on. */
  lemma DirRoundTrip(mem: seq<Byte>, a: nat, dir: Dir)
    requires a + 272 <= |mem| && mem[a..a + 272] == dir.Bytes()
    ensures IntAt(mem, a) == dir.index && DirentAt(mem, a + 4) == dir.entry
  {
    hide IntBytes, IntAt, DirentAt, Dirent.Bytes;
    var b := dir.Bytes();
    assert b[0..4] == IntBytes(dir.index) && b[4..272] == dir.entry.Bytes();
    Nested(mem, a, 272, 0, 4);
    Nested(mem, a, 272, 4, 272);
    IntRoundTrip(mem, a, dir.index);
    DirentRoundTrip(mem, a + 4, dir.entry);
  }

  // ---------------------------------------------------------------- the process

  datatype KernelCall = KernelCall(call: Call, ret: Int32)

  /** A process: its memory, the `DIR` blocks it has allocated, and the system calls made. */
  datatype Process = Process(mem: seq<Byte>, live: set<Word>, calls: seq<KernelCall>) {

    /** Address `x` belongs to the block at `d`. */
    static predicate Inside(x: int, d: Word) {
      d <= x < d + DIR_SIZE
    }

    predicate Fits(d: Word) {
      d > 0 && d + DIR_SIZE <= |mem| <= 0x1_0000_0000
    }

    static predicate Apart(d: Word, e: Word) {
      d + DIR_SIZE <= e || e + DIR_SIZE <= d
    }

    /** What `malloc` may return: null, or a block apart from those in use. */
    ghost predicate CanAllocate(d: Word) {
      d == 0 || (Fits(d) && forall e :: e in live ==> Apart(d, e))
    }

    /** The kernel leaves `block` in the handle at `d`. */
    function Store(d: Word, block: Dir): Process {
      if d + DIR_SIZE <= |mem| then this.(mem := mem[..d] + block.Bytes() + mem[d + DIR_SIZE..]) else this
    }

    function Record(c: Call, ret: Int32): Process {
      this.(calls := calls + [KernelCall(c, ret)])
    }
  }

  /** One operation of the client, with what the allocator and the kernel choose to do: the
      address allocated (0 if none), the handle's new contents, and the kernel's result.
      `Poke` is any other write of the program to its memory. */
  datatype Op =
    | OpenDir(path: Word, alloc: Word, block: Dir, ret: Int32)
    | ReadDir(dir: Word, block: Dir, ret: Int32)
    | CloseDir(dir: Word, block: Dir, ret: Int32)
    | Poke(addr: Word, b: Byte)
  {
    /** The pointer or number that the operation returns. */
    function Result(): Word
      requires ReadDir? ==> dir + ENTRY_OFFSET < 0x1_0000_0000
    {
      match this
      case OpenDir(_, alloc, _, ret) => if alloc == 0 || ret < 0 then 0 else alloc
      case ReadDir(dir, _, ret) => if ret < 0 then 0 else dir + ENTRY_OFFSET
      case CloseDir(_, _, _) => 0
      case Poke(_, _) => 0
    }
  }

  /** The kernel writes only to the handle it is passed, the program only outside handles. */
  ghost predicate EnvironmentOk(p: Process, op: Op) {
    match op
    case OpenDir(_, alloc, _, _) => p.CanAllocate(alloc)
    case ReadDir(_, _, _) => true
    case CloseDir(_, _, _) => true
    case Poke(addr, _) => addr < |p.mem| && forall d :: d in p.live ==> !Process.Inside(addr, d)
  }

  function Step(p: Process, op: Op): Process {
    match op
    case OpenDir(path, alloc, block, ret) =>
      if alloc == 0 then p
      else
        var q := p.(live := p.live + {alloc}).Record(Opendir(path, alloc), ret).Store(alloc, block);
        if ret < 0 then q.(live := q.live - {alloc}) else q
    case ReadDir(dir, block, ret) =>
      if dir + ENTRY_OFFSET < 0x1_0000_0000
      then p.Record(Readdir(dir, dir + ENTRY_OFFSET), ret).Store(dir, block) else p
    case CloseDir(dir, block, ret) =>
      var q := p.Record(Closedir(dir), ret).Store(dir, block);
      q.(live := q.live - {dir})
    case Poke(addr, b) => if addr < |p.mem| then p.(mem := p.mem[addr := b]) else p
  }

  // ---------------------------------------------------------------- runs of a careful client

  /** What the client knows: the pointers `opendir` gave it that it has not closed. */
  function Handles(ops: seq<Op>): set<Word> {
    if ops == [] then {}
    else
      var before := Handles(ops[..|ops| - 1]);
      match ops[|ops| - 1]
      case OpenDir(_, alloc, _, ret) => if alloc == 0 || ret < 0 then before else before + {alloc}
      case CloseDir(dir, _, _) => before - {dir}
      case _ => before
  }

  /** It reads and closes only those. */
  predicate ClientOk(handles: set<Word>, op: Op) {
    (op.ReadDir? || op.CloseDir?) ==> op.dir in handles
  }

  ghost predicate Init(p: Process) {
    p.live == {} && p.calls == [] && |p.mem| <= 0x1_0000_0000
  }

  function Exec(p: Process, ops: seq<Op>): Process {
    if ops == [] then p else Step(Exec(p, ops[..|ops| - 1]), ops[|ops| - 1])
  }

  ghost predicate Run(p: Process, ops: seq<Op>) {
    ops == [] ||
    (var n := |ops| - 1;
     && Run(p, ops[..n])
     && EnvironmentOk(Exec(p, ops[..n]), ops[n])
     && ClientOk(Handles(ops[..n]), ops[n]))
  }

  /** Every live block lies in memory and apart from the others. */
  ghost predicate HeapOk(p: Process) {
    && |p.mem| <= 0x1_0000_0000
    && (forall d :: d in p.live ==> p.Fits(d))
    && (forall d, e :: d in p.live && e in p.live && d != e ==> Process.Apart(d, e))
  }

  lemma StepHeap(p: Process, op: Op)
    requires HeapOk(p) && EnvironmentOk(p, op) && ClientOk(p.live, op)
    ensures HeapOk(Step(p, op)) && |Step(p, op).mem| == |p.mem|
  {
  }

  /** Conservation: the live `DIR` blocks are exactly the streams opened and not yet closed,
      despite allocation failure, kernel failure, and reuse of addresses. */
  lemma {:induction false} LiveBlocksAreOpenStreams(p: Process, ops: seq<Op>)
    requires Init(p) && Run(p, ops)
    ensures Exec(p, ops).live == Handles(ops)
    ensures HeapOk(Exec(p, ops)) && |Exec(p, ops).mem| == |p.mem|
    decreases |ops|
  {
    if ops != [] {
      var n := |ops| - 1;
      LiveBlocksAreOpenStreams(p, ops[..n]);
      StepHeap(Exec(p, ops[..n]), ops[n]);
      var op := ops[n];
      if op.OpenDir? && op.alloc != 0 {
        assert op.alloc !in Exec(p, ops[..n]).live;
      }
    }
  }

  // ---------------------------------------------------------------- the kernel's view

  /** Successful SYS_opendir calls minus SYS_closedir calls on address `a`. */
  function Balance(calls: seq<KernelCall>, a: Word): int {
    if calls == [] then 0
    else
      var k := calls[|calls| - 1];
      Balance(calls[..|calls| - 1], a)
      + (if k.call.Opendir? && k.call.dir == a && k.ret >= 0 then 1
         else if k.call.Closedir? && k.call.dir == a then -1 else 0)
  }

  lemma BalanceAppend(calls: seq<KernelCall>, k: KernelCall, a: Word)
    ensures Balance(calls + [k], a) == Balance(calls, a)
              + (if k.call.Opendir? && k.call.dir == a && k.ret >= 0 then 1
                 else if k.call.Closedir? && k.call.dir == a then -1 else 0)
  {
    assert (calls + [k])[..|calls|] == calls;
  }

  lemma BalanceStep(p: Process, op: Op, a: Word)
    ensures Balance(Step(p, op).calls, a) == Balance(p.calls, a)
              + (if op.OpenDir? && op.alloc == a != 0 && op.ret >= 0 then 1
                 else if op.CloseDir? && op.dir == a then -1 else 0)
  {
    hide Balance;
    match op
    case OpenDir(path, alloc, _, ret) => BalanceAppend(p.calls, KernelCall(Opendir(path, alloc), ret), a);
    case ReadDir(dir, _, ret) =>
      if dir + ENTRY_OFFSET < 0x1_0000_0000 {
        BalanceAppend(p.calls, KernelCall(Readdir(dir, dir + ENTRY_OFFSET), ret), a);
      }
    case CloseDir(dir, _, ret) => BalanceAppend(p.calls, KernelCall(Closedir(dir), ret), a);
    case Poke(_, _) =>
  }

  /** Pairing: at any moment the kernel has seen one more open than closes for an address
      that is an open stream, and as many for any other. */
  lemma {:induction false} CallsArePaired(p: Process, ops: seq<Op>, a: Word)
    requires Init(p) && Run(p, ops)
    ensures Balance(Exec(p, ops).calls, a) == if a in Handles(ops) then 1 else 0
    decreases |ops|
  {
    hide Step, Balance;
    if ops == [] {
      assert Balance([], a) == 0 by { BalanceEmpty(a); }
    } else {
      var n := |ops| - 1;
      var e, op := Exec(p, ops[..n]), ops[n];
      CallsArePaired(p, ops[..n], a);
      LiveBlocksAreOpenStreams(p, ops[..n]);
      BalanceStep(e, op, a);
      if op.OpenDir? && op.alloc != 0 {
        assert op.alloc !in e.live;
      }
    }
  }

  /** A careful client is exactly what it takes: one more `closedir` on any address leaves the
      kernel with as many opens as closes if that stream is open, and with too many closes if
      it is not. */
  lemma ClosePairsIffOpen(p: Process, ops: seq<Op>, d: Word, block: Dir, ret: Int32)
    requires Init(p) && Run(p, ops)
    ensures Balance(Exec(p, ops + [CloseDir(d, block, ret)]).calls, d) >= 0 <==> d in Handles(ops)
  {
    assert (ops + [CloseDir(d, block, ret)])[..|ops|] == ops;
    CallsArePaired(p, ops, d);
    BalanceStep(Exec(p, ops), CloseDir(d, block, ret), d);
  }

  lemma BalanceEmpty(a: Word)
    ensures Balance([], a) == 0
  {
  }

  // ---------------------------------------------------------------- entries

  /** The operation leaves the stream at `d` alone. */
  predicate Spares(op: Op, d: Word) {
    (op.ReadDir? || op.CloseDir?) ==> op.dir != d
  }

  lemma StepSpares(p: Process, op: Op, d: Word)
    requires HeapOk(p) && EnvironmentOk(p, op) && ClientOk(p.live, op)
    requires d in p.live && Spares(op, d)
    ensures d in Step(p, op).live
    ensures forall x :: Process.Inside(x, d) ==> x < |p.mem| == |Step(p, op).mem| && Step(p, op).mem[x] == p.mem[x]
  {
    StepHeap(p, op);
    assert p.Fits(d);
  }

  lemma {:induction false} RunPrefix(p: Process, ops: seq<Op>, k: nat)
    requires Run(p, ops) && k <= |ops|
    ensures Run(p, ops[..k])
    decreases |ops|
  {
    if k < |ops| {
      RunPrefix(p, ops[..|ops| - 1], k);
      assert ops[..|ops| - 1][..k] == ops[..k];
    } else {
      assert ops[..k] == ops;
    }
  }

  /** The bytes of the handle at `d`. */
  function Handle(p: Process, d: Word): seq<Byte>
    requires d + 272 <= |p.mem|
  {
    p.mem[d..d + 272]
  }

  lemma StepKeepsHandle(p: Process, op: Op, d: Word)
    requires HeapOk(p) && EnvironmentOk(p, op) && ClientOk(p.live, op)
    requires d in p.live && Spares(op, d)
    ensures d + 272 <= |p.mem| == |Step(p, op).mem| && Handle(Step(p, op), d) == Handle(p, d)
  {
    assert p.Fits(d);
    StepHeap(p, op);
    StepSpares(p, op, d);
    forall x | d <= x < d + 272 ensures Step(p, op).mem[x] == p.mem[x] {
      assert Process.Inside(x, d);
    }
  }

  lemma {:induction false} HandleIsStable(p: Process, ops: seq<Op>, k: nat, d: Word)
    requires Init(p) && Run(p, ops) && k <= |ops| && d in Handles(ops[..k])
    requires forall i :: k <= i < |ops| ==> Spares(ops[i], d)
    ensures d in Handles(ops) && d + 272 <= |p.mem| <= 0x1_0000_0000
    ensures |Exec(p, ops).mem| == |Exec(p, ops[..k]).mem| == |p.mem|
    ensures Handle(Exec(p, ops), d) == Handle(Exec(p, ops[..k]), d)
    decreases |ops|
  {
    hide Step, Handle;
    RunPrefix(p, ops, k);
    LiveBlocksAreOpenStreams(p, ops);
    LiveBlocksAreOpenStreams(p, ops[..k]);
    assert Exec(p, ops[..k]).Fits(d);
    if k == |ops| {
      assert ops[..k] == ops;
    } else {
      var n := |ops| - 1;
      assert ops[..n][..k] == ops[..k];
      HandleIsStable(p, ops[..n], k, d);
      LiveBlocksAreOpenStreams(p, ops[..n]);
      StepKeepsHandle(Exec(p, ops[..n]), ops[n], d);
    }
  }

  /** Independence: every byte of the entry that `readdir` returned a pointer to keeps its
      value through any operations on other streams and any other writes, until its own stream
      is read or closed. */
  lemma EntryIsStable(p: Process, ops: seq<Op>, k: nat, d: Word)
    requires Init(p) && Run(p, ops) && k <= |ops| && d in Handles(ops[..k])
    requires forall i :: k <= i < |ops| ==> Spares(ops[i], d)
    ensures d in Handles(ops) && d + 272 <= |p.mem| <= 0x1_0000_0000
    ensures |Exec(p, ops).mem| == |Exec(p, ops[..k]).mem| == |p.mem|
    ensures Exec(p, ops).mem[d + 4..d + 272] == Exec(p, ops[..k]).mem[d + 4..d + 272]
  {
    HandleIsStable(p, ops, k, d);
    Nested(Exec(p, ops).mem, d, 272, 4, 272);
    Nested(Exec(p, ops[..k]).mem, d, 272, 4, 272);
  }

  /** What `readdir` hands out is a pointer to the entry the kernel has just written, four bytes
      into the handle and clear of its index: the fields read there are the fields stored. */
  lemma ReadReturnsWhatTheKernelWrote(p: Process, ops: seq<Op>, d: Word, block: Dir, ret: Int32)
    requires Init(p) && Run(p, ops + [ReadDir(d, block, ret)]) && ret >= 0
    ensures d + 272 <= |p.mem| <= 0x1_0000_0000
    ensures var e, r := Exec(p, ops + [ReadDir(d, block, ret)]), ReadDir(d, block, ret).Result();
            && |e.mem| == |p.mem| && r == d + 4
            && IntAt(e.mem, d) == block.index
            && IntAt(e.mem, r) == block.entry.index && IntAt(e.mem, r + 4) == block.entry.kind
            && e.mem[r + 8..r + 263] == block.entry.name && IntAt(e.mem, r + 264) == block.entry.size
  {
    var op := ReadDir(d, block, ret);
    assert (ops + [op])[..|ops|] == ops;
    LiveBlocksAreOpenStreams(p, ops);
    var q := Exec(p, ops);
    assert q.Fits(d);
    StepHeap(q, op);
    StoredIsRead(q, d, block);
  }

  lemma StoredIsRead(p: Process, d: Word, block: Dir)
    requires d + 272 <= |p.mem|
    ensures |p.Store(d, block).mem| == |p.mem|
    ensures DirentAt(p.Store(d, block).mem, d + 4) == block.entry && IntAt(p.Store(d, block).mem, d) == block.index
  {
    hide IntAt, DirentAt, Dir.Bytes;
    var mem := p.Store(d, block).mem;
    assert mem[d..d + 272] == block.Bytes();
    DirRoundTrip(mem, d, block);
  }

  // ---------------------------------------------------------------- in place

  /** The library, updating its process as it goes; the run shows what it has done so far. */
  class Library {
    var mem: seq<Byte>
    var live: set<Word>
    var calls: seq<KernelCall>
    ghost var start: Process
    ghost var ops: seq<Op>

    ghost function State(): Process
      reads this
    {
      Process(mem, live, calls)
    }

    ghost predicate Valid()
      reads this
    {
      && Init(start) && Run(start, ops) && State() == Exec(start, ops)
      && live == Handles(ops) && HeapOk(State())
    }

    constructor (mem: seq<Byte>)
      requires |mem| <= 0x1_0000_0000
      ensures Valid() && ops == []
    {
      this.mem, live, calls := mem, {}, [];
      start := Process(mem, {}, []);
      ops := [];
    }

    ghost method Did(op: Op)
      requires Init(start) && Run(start, ops)
      requires EnvironmentOk(Exec(start, ops), op) && ClientOk(Handles(ops), op)
      requires State() == Step(Exec(start, ops), op)
      modifies this`ops
      ensures Valid() && ops == old(ops) + [op]
    {
      assert (ops + [op])[..|ops|] == ops;
      ops := ops + [op];
      LiveBlocksAreOpenStreams(start, ops);
    }

    /** The kernel leaves `block` in the handle at `d`. */
    method SysCall(c: Call, d: Word, block: Dir, ret: Int32) returns (err: Int32)
      requires d + DIR_SIZE <= |mem|
      modifies this`mem, this`calls
      ensures State() == old(State()).Record(c, ret).Store(d, block) && err == ret
    {
      calls := calls + [KernelCall(c, ret)];
      mem := mem[..d] + block.Bytes() + mem[d + DIR_SIZE..];
      err := ret;
    }

    /** Null when there is no memory, in which case no system call is made, or when the kernel
        refuses, in which case the block is given back. */
    method OpenStream(path: Word, alloc: Word, block: Dir, ret: Int32) returns (dir: Word)
      requires Valid() && EnvironmentOk(State(), OpenDir(path, alloc, block, ret))
      modifies this
      ensures Valid() && start == old(start) && ops == old(ops) + [OpenDir(path, alloc, block, ret)]
      ensures dir == OpenDir(path, alloc, block, ret).Result()
      ensures dir != 0 <==> alloc != 0 && ret >= 0
      ensures live == old(live) + if dir != 0 then {dir} else {}
      ensures calls == old(calls) + if alloc == 0 then [] else [KernelCall(Opendir(path, alloc), ret)]
    {
      dir := alloc;
      if dir == 0 {
        Did(OpenDir(path, alloc, block, ret));
        return 0;
      }
      live := live + {dir};
      var err := SysCall(Opendir(path, dir), dir, block, ret);
      if err < 0 {
        live := live - {dir};
        dir := 0;
      }
      Did(OpenDir(path, alloc, block, ret));
    }

    /** A pointer into the handle, or null when the kernel has no entry. */
    method ReadStream(dir: Word, block: Dir, ret: Int32) returns (entry: Word)
      requires Valid() && dir in Handles(ops)
      modifies this
      ensures Valid() && start == old(start) && ops == old(ops) + [ReadDir(dir, block, ret)]
      ensures live == old(live) && dir + 272 <= |mem| == |old(mem)| <= 0x1_0000_0000
      ensures calls == old(calls) + [KernelCall(Readdir(dir, dir + 4), ret)]
      ensures entry == if ret < 0 then 0 else dir + 4
      ensures ret >= 0 ==>
                && IntAt(mem, dir) == block.index
                && IntAt(mem, entry) == block.entry.index && IntAt(mem, entry + 4) == block.entry.kind
                && mem[entry + 8..entry + 263] == block.entry.name && IntAt(mem, entry + 264) == block.entry.size
    {
      assert State().Fits(dir);
      StoredIsRead(State().Record(Readdir(dir, dir + ENTRY_OFFSET), ret), dir, block);
      var err := SysCall(Readdir(dir, dir + ENTRY_OFFSET), dir, block, ret);
      entry := if err < 0 then 0 else dir + ENTRY_OFFSET;
      Did(ReadDir(dir, block, ret));
    }

    /** The handle is given back whatever the kernel answers. */
    method CloseStream(dir: Word, block: Dir, ret: Int32) returns (r: int)
      requires Valid() && dir in Handles(ops)
      modifies this
      ensures Valid() && start == old(start) && ops == old(ops) + [CloseDir(dir, block, ret)]
      ensures calls == old(calls) + [KernelCall(Closedir(dir), ret)]
      ensures live == old(live) - {dir} && r == 0
    {
      assert State().Fits(dir);
      var err := SysCall(Closedir(dir), dir, block, ret);
      live := live - {dir};
      Did(CloseDir(dir, block, ret));
      r := 0;
    }
  }
}
