/**
 The bitmap behind the physical page allocator: the search for a run of bits, what it really
 guarantees, and why pages handed out one at a time are never handed out twice.
 */
module PageBitmap {

  // ---------------------------------------------------------------- runs of equal bits

  /** All of the `n` bits from `i` exist and equal `bit`. */
  predicate RunAt(bits: seq<bool>, i: int, n: nat, bit: bool) {
    0 <= i && i + n <= |bits| && forall k :: i <= k < i + n ==> bits[k] == bit
  }

  /** What the caller asks for: the first run of `count` bits, or -1 if there is none. */
  ghost predicate FirstRun(bits: seq<bool>, bit: bool, count: nat, r: int) {
    if r < 0 then r == -1 && forall i :: 0 <= i < |bits| ==> !RunAt(bits, i, count, bit)
    else r < |bits| && RunAt(bits, r, count, bit) && forall i :: 0 <= i < r ==> !RunAt(bits, i, count, bit)
  }

  /** How many bits the search really looks at: its inner loop tests the first bit a second
      time, and so never the last one. */
  function Examined(count: int): nat {
    if count <= 1 then 1 else count - 1
  }

  lemma FirstRunUnique(bits: seq<bool>, bit: bool, count: nat, r: int, r': int)
    requires FirstRun(bits, bit, count, r) && FirstRun(bits, bit, count, r')
    ensures r == r'
  {
  }

  /** The bits from `i` on set to `v`, as far as they exist. */
  function SetBits(bits: seq<bool>, i: nat, count: int, v: bool): (after: seq<bool>)
    ensures |after| == |bits|
    ensures forall k :: 0 <= k < |bits| ==> after[k] == if i <= k < i + count then v else bits[k]
  {
    seq(|bits|, k requires 0 <= k < |bits| => if i <= k < i + count then v else bits[k])
  }

  // ---------------------------------------------------------------- bits in bytes

  function Mask(i: nat): bv8
    requires i < 8
  {
    1 << (i as bv3)
  }

  predicate HasBit(b: bv8, i: nat)
    requires i < 8
  {
    b & Mask(i) != 0
  }

  function WithBit(b: bv8, i: nat, v: bool): bv8
    requires i < 8
  {
    if v then b | Mask(i) else b & !Mask(i)
  }

  lemma ByteBits(b: bv8, i: bv3, j: bv3)
    ensures ((b | (1 << i)) >> j) & 1 == 1 <==> i == j || (b >> j) & 1 == 1
    ensures ((b & !(1 << i)) >> j) & 1 == 1 <==> i != j && (b >> j) & 1 == 1
    ensures b & (1 << j) != 0 <==> (b >> j) & 1 == 1
  {
  }

  lemma BitNumbers(i: nat, j: nat)
    requires i < 8 && j < 8
    ensures i as bv3 == j as bv3 <==> i == j
  {
  }

  /** Bit `i` of a byte has the weight 2 to the power of `i`. */
  predicate BitOf(b: bv8, i: nat)
    requires i < 8
  {
    (b >> (i as bv3)) & 1 == 1
  }

  /** The mask selects that bit. */
  lemma HasBitIsBitOf(b: bv8, i: nat)
    requires i < 8
    ensures HasBit(b, i) == BitOf(b, i)
  {
    ByteBits(b, i as bv3, i as bv3);
  }

  /** Setting or clearing through the mask gives the bit its new value and leaves the other
      seven alone. */
  lemma WithBitAt(b: bv8, i: nat, v: bool, j: nat)
    requires i < 8 && j < 8
    ensures BitOf(WithBit(b, i, v), j) == if j == i then v else BitOf(b, j)
  {
    BitNumbers(i, j);
    ByteBits(b, i as bv3, j as bv3);
  }

  /** The `count` bits that some bytes stand for, from the lowest bit of the first byte on. */
  function Unpacked(bytes: seq<bv8>, count: nat): (bits: seq<bool>)
    requires count <= 8 * |bytes|
    ensures |bits| == count && forall k :: 0 <= k < count ==> bits[k] == BitOf(bytes[k / 8], k % 8)
  {
    seq(count, k requires 0 <= k < count => BitOf(bytes[k / 8], k % 8))
  }

  lemma UnpackedUpdate(bytes: seq<bv8>, count: nat, at: nat, v: bool)
    requires at < count <= 8 * |bytes|
    ensures Unpacked(bytes[at / 8 := WithBit(bytes[at / 8], at % 8, v)], count) == Unpacked(bytes, count)[at := v]
  {
    hide HasBit, WithBit, BitOf;
    var after := bytes[at / 8 := WithBit(bytes[at / 8], at % 8, v)];
    forall k | 0 <= k < count ensures BitOf(after[k / 8], k % 8) == Unpacked(bytes, count)[at := v][k] {
      assert k == k / 8 * 8 + k % 8 && at == at / 8 * 8 + at % 8;
      WithBitAt(bytes[at / 8], at % 8, v, k % 8);
    }
  }

  // ---------------------------------------------------------------- the code

  class Bitmap {
    const bitCount: nat
    const bytes: array<bv8>

    ghost predicate Valid() {
      bitCount <= 8 * bytes.Length
    }

    ghost function Bits(): seq<bool>
      requires Valid()
      reads bytes
    {
      Unpacked(bytes[..], bitCount)
    }

    constructor (count: nat, initial: bool)
      ensures Valid() && fresh(bytes) && bitCount == count && bytes.Length == (count + 7) / 8
      ensures Bits() == seq(count, _ => initial)
    {
      bitCount := count;
      bytes := new bv8[(count + 8 - 1) / 8](_ => if initial then 0xFF else 0);
      new;
      forall k | 0 <= k < count ensures Bits()[k] == initial {
        assert bytes[..][k / 8] == if initial then 0xFF else 0;
      }
    }

    method GetBit(index: nat) returns (bit: bool)
      requires Valid() && index < bitCount
      ensures bit == Bits()[index]
    {
      HasBitIsBitOf(bytes[index / 8], index % 8);
      bit := HasBit(bytes[index / 8], index % 8);
    }

    /** The value of a bit is a C integer: any but 0 sets it. */
    method SetBit(index: nat, count: int, bit: int)
      requires Valid()
      modifies bytes
      ensures Bits() == SetBits(old(Bits()), index, count, bit != 0)
    {
      hide Mask, HasBit, BitOf;
      var i, at := 0, index;
      while i < count && at < bitCount
        invariant 0 <= i && at == index + i && (i <= count || i == 0)
        invariant at <= bitCount || i == 0
        invariant Bits() == SetBits(old(Bits()), index, i, bit != 0)
      {
        UnpackedUpdate(bytes[..], bitCount, at, bit != 0);
        bytes[at / 8] := WithBit(bytes[at / 8], at % 8, bit != 0);
        i, at := i + 1, at + 1;
      }
    }

    /** The scan, without the marking. `ok` is where it stops; -1 if it finds nothing. */
    method Search(bit: bool, count: int) returns (ok: int)
      requires Valid()
      ensures FirstRun(Bits(), bit, Examined(count), ok)
    {
      hide Mask, HasBit, BitOf, Unpacked;
      var search := 0;
      while search < bitCount
        invariant 0 <= search <= bitCount
        invariant forall i :: 0 <= i < search ==> !RunAt(Bits(), i, Examined(count), bit)
        decreases bitCount - search
      {
        var first := GetBit(search);
        if first != bit {
          assert !RunAt(Bits(), search, Examined(count), bit);
          search := search + 1;
        } else {
          ok := search;
          var i := 1;
          var broken := false;
          while i < count && search < bitCount && !broken
            invariant 1 <= i && ok <= search <= bitCount && search <= ok + (if count <= 1 then 0 else count - 1)
            invariant if broken then ok < search && Bits()[search - 1] != bit else search == ok + i - 1 && (i <= count || i == 1)
            invariant broken ==> i < count
            invariant forall k :: ok <= k < search - (if broken then 1 else 0) ==> Bits()[k] == bit
            decreases count - i, !broken
          {
            var next := GetBit(search);
            broken := next != bit;
            search := search + 1;
            if !broken {
              i := i + 1;
            }
          }
          if i >= count {
            return;
          }
          NoRunBefore(Bits(), ok, search, Examined(count), bit, broken);
          if !broken {
            assert search == bitCount;
          }
        }
      }
      ok := -1;
    }

    /** The allocator marks the run with the C complement of `bit`, which is never 0. */
    method AllocNbits(bit: bool, count: int) returns (r: int)
      requires Valid()
      modifies bytes
      ensures FirstRun(old(Bits()), bit, Examined(count), r)
      ensures Bits() == if r < 0 then old(Bits()) else SetBits(old(Bits()), r, count, true)
    {
      r := Search(bit, count);
      if r >= 0 {
        SetBit(r, count, -1 - (if bit then 1 else 0));
      }
    }
  }

  /** A mismatch, or the end of the bitmap, rules out every start up to it. */
  lemma NoRunBefore(bits: seq<bool>, ok: nat, search: nat, n: nat, bit: bool, broken: bool)
    requires ok <= search <= |bits| && n > 0
    requires if broken then ok < search <= ok + n && bits[search - 1] != bit
             else search == |bits| && search < ok + n
    ensures forall i :: ok <= i < search ==> !RunAt(bits, i, n, bit)
  {
    forall i | ok <= i < search ensures !RunAt(bits, i, n, bit) {
      if broken {
        assert RunAt(bits, i, n, bit) ==> search - 1 < i + n;
      }
    }
  }

  // ---------------------------------------------------------------- what it guarantees

  /** The allocation is right: it found the first run of `count` bits, and only such a run. */
  ghost predicate Delivers(bits: seq<bool>, bit: bool, count: int, r: int) {
    count >= 0 && FirstRun(bits, bit, count, r)
  }

  /** `n` free bits, then one in use. */
  function FreeThenUsed(n: nat): seq<bool> {
    seq(n, _ => false) + [true]
  }

  /** For two or more bits the search hands out a bit that is in use. */
  lemma HandsOutUsedBit(count: int)
    requires count >= 2
    ensures FirstRun(FreeThenUsed(count - 1), false, Examined(count), 0)
    ensures FreeThenUsed(count - 1)[count - 1]
    ensures !Delivers(FreeThenUsed(count - 1), false, count, 0)
  {
    var bits := FreeThenUsed(count - 1);
    assert bits[0 + (count - 1)];
  }

  /** The search is right on every bitmap if and only if it is asked for a single bit. */
  lemma RightIffSingle(count: int)
    requires count >= 1
    ensures (forall bits, r :: FirstRun(bits, false, Examined(count), r) ==> Delivers(bits, false, count, r))
            <==> count == 1
  {
    if count >= 2 {
      HandsOutUsedBit(count);
    }
  }

  /** Every bit found is marked with the opposite value if and only if it is free bits that
      are searched for, and at least one of them. */
  lemma MarksOppositeIff(bits: seq<bool>, bit: bool, count: int, r: nat)
    requires FirstRun(bits, bit, Examined(count), r)
    ensures (forall k :: r <= k < r + Examined(count) ==> SetBits(bits, r, count, true)[k] != bit)
            <==> !bit && count >= 1
  {
    var after := SetBits(bits, r, count, true);
    assert RunAt(bits, r, Examined(count), bit);
    assert after[r] == if count >= 1 then true else bits[r];
  }

  // ---------------------------------------------------------------- the page allocator

  /** The first run of `n` free bits from `i` on, or -1. */
  function FindRun(bits: seq<bool>, n: nat, i: nat): (r: int)
    requires i <= |bits|
    ensures r == -1 || (i <= r < |bits| && RunAt(bits, r, n, false))
    ensures forall k :: i <= k < (if r < 0 then |bits| else r) ==> !RunAt(bits, k, n, false)
    decreases |bits| - i
  {
    if i == |bits| then -1 else if RunAt(bits, i, n, false) then i else FindRun(bits, n, i + 1)
  }

  const ADDRESSES := 0x1_0000_0000

  /** Equal pages from `start` on, inside the 32-bit address space. */
  datatype Pool = Pool(start: int, pageSize: int, bits: seq<bool>) {

    predicate Ok() {
      start > 0 && pageSize > 1 && Address(|bits|) <= ADDRESSES
    }

    function Address(i: int): int {
      start + i * pageSize
    }

    /** The page index of an address, in 32-bit arithmetic. */
    function Index(addr: int): nat
      requires pageSize > 0
    {
      (addr - start) % ADDRESSES / pageSize
    }

    /** `addr_alloc_page`: the index of the first page, or -1. */
    function Find(count: int): int {
      FindRun(bits, Examined(count), 0)
    }

    function Alloc(count: int): Pool {
      var r := Find(count);
      if r >= 0 then this.(bits := SetBits(bits, r, count, true)) else this
    }

    /** `addr_free_page`. */
    function Free(addr: int, count: int): Pool
      requires pageSize > 0
    {
      this.(bits := SetBits(bits, Index(addr), count, false))
    }

    /** The addresses of `count` pages from index `r` on. */
    function Pages(r: int, count: int): set<int> {
      set i {:trigger Address(i)} | r <= i < r + count :: Address(i)
    }
  }

  /** `addr_alloc_t`: the bitmap and where its pages lie. */
  class AddrAlloc {
    const bitmap: Bitmap
    const start: int
    const pageSize: int

    ghost predicate Valid() {
      bitmap.Valid() && start > 0 && pageSize > 1 && start + bitmap.bitCount * pageSize <= ADDRESSES
    }

    constructor (start: int, pages: nat, pageSize: int)
      requires start > 0 && pageSize > 1 && start + pages * pageSize <= ADDRESSES
      ensures Valid() && this.start == start && this.pageSize == pageSize && fresh(bitmap) && fresh(bitmap.bytes)
      ensures State() == Pool(start, pageSize, seq(pages, _ => false))
    {
      this.start, this.pageSize := start, pageSize;
      bitmap := new Bitmap(pages, false);
    }

    ghost function State(): (p: Pool)
      requires Valid()
      reads bitmap.bytes
      ensures p.Ok()
    {
      Pool(start, pageSize, bitmap.Bits())
    }

    method AllocPage(count: int) returns (addr: int)
      requires Valid()
      modifies bitmap.bytes
      ensures State() == old(State()).Alloc(count)
      ensures addr == var r := old(State()).Find(count); if r < 0 then 0 else State().Address(r)
      ensures addr != 0 ==>
                && (addr - start) % pageSize == 0
                && start <= addr && addr + pageSize <= start + bitmap.bitCount * pageSize
      ensures addr == 0 ==> bitmap.Bits() == old(bitmap.Bits())
      ensures addr != 0 ==> var r := (addr - start) / pageSize;
                && FirstRun(old(bitmap.Bits()), false, Examined(count), r)
                && bitmap.Bits() == SetBits(old(bitmap.Bits()), r, count, true)
    {
      ghost var before := bitmap.Bits();
      var index := bitmap.AllocNbits(false, count);
      FirstRunUnique(before, false, Examined(count), index, FindRun(before, Examined(count), 0));
      addr := if index >= 0 then start + index * pageSize else 0;
      if index >= 0 {
        InsidePool(start, pageSize, bitmap.bitCount, index);
      }
    }

    method FreePage(addr: int, count: int)
      requires Valid()
      modifies bitmap.bytes
      ensures State() == old(State()).Free(addr, count)
      ensures forall k :: 0 <= k < bitmap.bitCount ==>
                bitmap.Bits()[k] == (old(bitmap.Bits())[k] && !Freed((addr - start) % 0x1_0000_0000, pageSize, count, k))
    {
      FreedBits(State(), addr, count);
      var index := (addr - start) % ADDRESSES / pageSize;
      bitmap.SetBit(index, count, 0);
    }
  }

  /** Page `k` is the one that the byte at `offset` belongs to, or one of the `count - 1` pages
      behind it. */
  predicate Freed(offset: int, size: int, count: int, k: int) {
    (k - count + 1) * size <= offset < (k + 1) * size
  }

  lemma FreedBits(p: Pool, addr: int, count: int)
    requires p.pageSize > 0
    ensures forall k :: 0 <= k < |p.bits| ==>
              p.Free(addr, count).bits[k] == (p.bits[k] && !Freed((addr - p.start) % 0x1_0000_0000, p.pageSize, count, k))
  {
    var offset := (addr - p.start) % 0x1_0000_0000;
    forall k | 0 <= k < |p.bits|
      ensures p.Free(addr, count).bits[k] == (p.bits[k] && !Freed(offset, p.pageSize, count, k))
    {
      Quotient(offset, p.pageSize, k - count + 1);
      Quotient(offset, p.pageSize, k + 1);
    }
  }

  /** Page `i` of `n` lies inside the pool, on a page boundary. */
  lemma InsidePool(start: int, size: int, n: nat, i: nat)
    requires start > 0 && size > 0 && i < n
    ensures start <= start + i * size && start + i * size + size <= start + n * size
    ensures (i * size) % size == 0 && i * size / size == i
  {
    Monotone(0, i, size);
    Monotone(i, n - 1, size);
    Monotone(n - 1, n, size);
    Quotient(i * size, size, i);
  }

  // ---------------------------------------------------------------- who holds which page

  /** A caller that frees says which pages it means to give back. */
  datatype PageOp = AllocPage(count: int) | FreePage(addr: int, count: int, given: set<int>)

  function PoolAfter(pool: Pool, ops: seq<PageOp>): (p: Pool)
    requires pool.Ok()
    ensures p.Ok() && p.start == pool.start && p.pageSize == pool.pageSize && |p.bits| == |pool.bits|
  {
    if ops == [] then pool
    else
      var p := PoolAfter(pool, ops[..|ops| - 1]);
      match ops[|ops| - 1]
      case AllocPage(count) => p.Alloc(count)
      case FreePage(addr, count, _) => p.Free(addr, count)
  }

  /** The pages that an allocation hands out. */
  function HandedOut(p: Pool, count: int): set<int> {
    if p.Find(count) < 0 then {} else p.Pages(p.Find(count), count)
  }

  /** The pages that the callers hold: handed out and not yet given back. */
  function Held(pool: Pool, ops: seq<PageOp>): set<int>
    requires pool.Ok()
  {
    if ops == [] then {}
    else
      var n := |ops| - 1;
      match ops[n]
      case AllocPage(count) => Held(pool, ops[..n]) + HandedOut(PoolAfter(pool, ops[..n]), count)
      case FreePage(_, _, given) => Held(pool, ops[..n]) - given
  }

  /** The pages of the pool that are held are exactly those whose bits are set. */
  ghost predicate BitsSayHeld(p: Pool, held: set<int>) {
    forall i :: 0 <= i < |p.bits| ==> (p.bits[i] <==> p.Address(i) in held)
  }

  /** Of the pages that are held, the call clears the bits of those that it means to give back
      and of no others. */
  ghost predicate FreeMatches(p: Pool, held: set<int>, addr: int, count: int, given: set<int>)
    requires p.Ok()
  {
    forall i :: 0 <= i < |p.bits| && p.Address(i) in held ==>
      (p.Index(addr) <= i < p.Index(addr) + count <==> p.Address(i) in given)
  }

  lemma AddressesDiffer(p: Pool, i: int, j: int)
    requires p.pageSize > 0 && p.Address(i) == p.Address(j)
    ensures i == j
  {
    assert (i - j) * p.pageSize == i * p.pageSize - j * p.pageSize == 0;
  }

  lemma PagesContain(p: Pool, r: int, count: int, i: int)
    requires p.pageSize > 0
    ensures p.Address(i) in p.Pages(r, count) <==> r <= i < r + count
  {
    if p.Address(i) in p.Pages(r, count) {
      var j :| r <= j < r + count && p.Address(j) == p.Address(i);
      AddressesDiffer(p, i, j);
    }
  }

  /** A free keeps the books right if and only if it matches. */
  lemma FreeKeepsIff(p: Pool, held: set<int>, addr: int, count: int, given: set<int>)
    requires p.Ok() && BitsSayHeld(p, held)
    ensures BitsSayHeld(p.Free(addr, count), held - given) <==> FreeMatches(p, held, addr, count, given)
  {
    var p' := p.Free(addr, count);
    forall i | 0 <= i < |p.bits|
      ensures (p'.bits[i] <==> p'.Address(i) in held - given)
              <==> (p.Address(i) in held ==>
                      (p.Index(addr) <= i < p.Index(addr) + count <==> p.Address(i) in given))
    {
    }
    assert forall i :: p'.Address(i) == p.Address(i);
  }

  /** Giving back a run of pages by the address of the first one matches, for every count. */
  lemma FreeOfRunMatches(p: Pool, held: set<int>, r: nat, count: int)
    requires p.Ok() && r < |p.bits|
    ensures FreeMatches(p, held, p.Address(r), count, p.Pages(r, count))
  {
    IndexOfPage(p, r);
    forall i | 0 <= i < |p.bits| ensures p.Address(i) in p.Pages(r, count) <==> r <= i < r + count {
      PagesContain(p, r, count, i);
    }
  }

  lemma IndexOfPage(p: Pool, r: nat)
    requires p.Ok() && r < |p.bits|
    ensures p.Index(p.Address(r)) == r
  {
    var offset, size := r * p.pageSize, p.pageSize;
    assert 0 <= offset < ADDRESSES by {
      assert (|p.bits| - r) * size == |p.bits| * size - offset;
    }
    Quotient(offset, size, r);
    assert offset % ADDRESSES == offset;
  }

  lemma Quotient(offset: int, size: int, n: int)
    requires size > 0
    ensures offset / size >= n <==> offset >= n * size
    ensures offset == n * size ==> offset / size == n
  {
    var q := offset / size;
    assert q * size <= offset < (q + 1) * size;
    if q < n {
      Monotone(q + 1, n, size);
    } else {
      Monotone(n, q, size);
    }
    if q > n {
      Monotone(n + 1, q, size);
    }
  }

  lemma Monotone(a: int, b: int, size: int)
    requires a <= b && size > 0
    ensures a * size <= b * size
    ensures (a + 1) * size == a * size + size
  {
    assert (b - a) * size >= 0;
  }

  /** An address behind the last page clears nothing, so that pages meant to be given back
      stay marked. The kernel frees a user address this way when mapping fails. */
  lemma FreeBehindLeaks(p: Pool, held: set<int>, addr: int, count: int, given: set<int>)
    requires p.Ok() && BitsSayHeld(p, held) && p.Address(|p.bits|) <= addr < ADDRESSES
    ensures p.Free(addr, count) == p
    ensures FreeMatches(p, held, addr, count, given)
            <==> forall i :: 0 <= i < |p.bits| && p.Address(i) in held ==> p.Address(i) !in given
  {
    assert p.Index(addr) >= |p.bits| by {
      Quotient(addr - p.start, p.pageSize, |p.bits|);
      assert (addr - p.start) % ADDRESSES == addr - p.start;
    }
    assert p.Free(addr, count).bits == p.bits;
  }

  /** An allocation keeps the books right, whatever its count. */
  lemma AllocKeeps(p: Pool, held: set<int>, count: int)
    requires p.Ok() && BitsSayHeld(p, held)
    ensures BitsSayHeld(p.Alloc(count), held + HandedOut(p, count))
  {
    hide Pool.Find;
    var r := p.Find(count);
    if r >= 0 {
      var p' := p.Alloc(count);
      forall i | 0 <= i < |p.bits| ensures p'.bits[i] <==> p'.Address(i) in held + HandedOut(p, count) {
        PagesContain(p, r, count, i);
      }
    }
  }

  /** The pages that it has looked at are held by nobody. */
  lemma ExaminedAreFree(p: Pool, held: set<int>, count: int, i: int)
    requires p.Ok() && BitsSayHeld(p, held) && p.Find(count) >= 0
    requires p.Find(count) <= i < p.Find(count) + Examined(count)
    ensures p.Address(i) !in held
  {
    assert RunAt(p.bits, p.Find(count), Examined(count), false);
    assert !p.bits[i];
  }

  /** It hands out pages that nobody holds if and only if nobody holds the last one, which it
      never looks at. */
  lemma AllocExclusiveIff(p: Pool, held: set<int>, count: int)
    requires p.Ok() && BitsSayHeld(p, held)
    ensures HandedOut(p, count) !! held
            <==> count <= 1 || p.Find(count) < 0 || p.Address(p.Find(count) + count - 1) !in held
  {
    hide Pool.Find, BitsSayHeld;
    var r := p.Find(count);
    if r >= 0 {
      forall a | a in p.Pages(r, count) && (count <= 1 || a != p.Address(r + count - 1)) ensures a !in held {
        var i :| r <= i < r + count && a == p.Address(i);
        ExaminedAreFree(p, held, count, i);
      }
      PagesContain(p, r, count, r + count - 1);
    }
  }

  /** A single page is found unless all of them are held. */
  lemma SingleFailsIff(p: Pool, held: set<int>)
    requires p.Ok() && BitsSayHeld(p, held)
    ensures p.Find(1) < 0 <==> forall i :: 0 <= i < |p.bits| ==> p.Address(i) in held
  {
    var r := p.Find(1);
    if r >= 0 {
      assert !p.bits[r];
    } else {
      forall i | 0 <= i < |p.bits| ensures p.bits[i] {
        assert !RunAt(p.bits, i, 1, false);
      }
    }
  }

  /** Every free so far matched what was held then. */
  ghost predicate Disciplined(pool: Pool, ops: seq<PageOp>)
    requires pool.Ok()
  {
    ops == [] ||
    (var n := |ops| - 1;
     Disciplined(pool, ops[..n]) &&
     (ops[n].FreePage? ==>
        FreeMatches(PoolAfter(pool, ops[..n]), Held(pool, ops[..n]), ops[n].addr, ops[n].count, ops[n].given)))
  }

  /** The books were right all along. */
  ghost predicate AlwaysRight(pool: Pool, ops: seq<PageOp>)
    requires pool.Ok()
  {
    BitsSayHeld(PoolAfter(pool, ops), Held(pool, ops)) && (ops == [] || AlwaysRight(pool, ops[..|ops| - 1]))
  }

  /** Over every run the bitmap says which pages are held if and only if every free matched. */
  lemma {:induction false} RightIffDisciplined(pool: Pool, ops: seq<PageOp>)
    requires pool.Ok() && (forall i :: 0 <= i < |pool.bits| ==> !pool.bits[i])
    ensures AlwaysRight(pool, ops) <==> Disciplined(pool, ops)
    decreases |ops|
  {
    if ops != [] {
      var n := |ops| - 1;
      RightIffDisciplined(pool, ops[..n]);
      var p, held := PoolAfter(pool, ops[..n]), Held(pool, ops[..n]);
      if BitsSayHeld(p, held) {
        match ops[n]
        case AllocPage(count) => AllocKeeps(p, held, count);
        case FreePage(addr, count, given) => FreeKeepsIff(p, held, addr, count, given);
      }
    }
  }

  /** No page is handed out twice: after every such run, the next allocation of one page hands
      out one that nobody holds, and fails only when every page is held. One of more pages
      does so if and only if nobody holds its last page. */
  lemma PagesAreExclusive(pool: Pool, ops: seq<PageOp>, count: int)
    requires pool.Ok() && (forall i :: 0 <= i < |pool.bits| ==> !pool.bits[i])
    requires Disciplined(pool, ops)
    ensures var p, held := PoolAfter(pool, ops), Held(pool, ops);
            && (HandedOut(p, count) !! held
                <==> count <= 1 || p.Find(count) < 0 || p.Address(p.Find(count) + count - 1) !in held)
            && (p.Find(1) < 0 <==> forall i :: 0 <= i < |pool.bits| ==> pool.Address(i) in held)
  {
    hide Held, HandedOut, Pool.Find;
    RightIffDisciplined(pool, ops);
    var p, held := PoolAfter(pool, ops), Held(pool, ops);
    AllocExclusiveIff(p, held, count);
    SingleFailsIff(p, held);
    assert forall i :: pool.Address(i) == p.Address(i);
  }

  // ---------------------------------------------------------------- bytes

  lemma AlignedPage(p: Pool, r: nat, count: int, a: int)
    requires p.Ok() && a in p.Pages(r, count)
    ensures a >= p.start && (a - p.start) % p.pageSize == 0
  {
    var i :| r <= i < r + count && a == p.Address(i);
    InsidePool(p.start, p.pageSize, i + 1, i);
  }

  /** Every page that was ever handed out starts on a page boundary at or above `start`. */
  lemma {:induction false} HeldIsAligned(pool: Pool, ops: seq<PageOp>, a: int)
    requires pool.Ok() && a in Held(pool, ops)
    ensures a >= pool.start && (a - pool.start) % pool.pageSize == 0
    decreases |ops|
  {
    hide Pool.Pages, Pool.Find;
    var n := |ops| - 1;
    if a in Held(pool, ops[..n]) {
      HeldIsAligned(pool, ops[..n], a);
    } else {
      var p := PoolAfter(pool, ops[..n]);
      AlignedPage(p, p.Find(ops[n].count), ops[n].count, a);
    }
  }

  /** No byte belongs to two pages that are held at once. */
  lemma PagesDoNotOverlap(pool: Pool, ops: seq<PageOp>, a: int, b: int)
    requires pool.Ok() && a in Held(pool, ops) && b in Held(pool, ops) && a != b
    ensures a + pool.pageSize <= b || b + pool.pageSize <= a
  {
    HeldIsAligned(pool, ops, a);
    HeldIsAligned(pool, ops, b);
    BoundariesApart(a - pool.start, b - pool.start, pool.pageSize);
  }

  lemma BoundariesApart(x: int, y: int, size: int)
    requires size > 0 && x % size == 0 && y % size == 0 && x != y
    ensures x + size <= y || y + size <= x
  {
    var i, j := x / size, y / size;
    assert x == i * size && y == j * size;
    if i < j {
      Monotone(i + 1, j, size);
      Monotone(i, i, size);
    } else {
      Monotone(j + 1, i, size);
      Monotone(j, j, size);
    }
  }
}
