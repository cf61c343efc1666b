/**
 The arena allocator: bump allocation inside 4096-byte blocks, with requests of 1024 bytes and more
 that do not fit given a block of their own.  Addresses of new blocks come from the environment.
 */
module ArenaModel {

  const BLOCK_SIZE := 4096
  const LARGE_SIZE := 1024
  const ALIGN := 8

  /** A stretch of memory: an owned block or a returned region. */
  datatype Area = Area(base: nat, size: nat)

  predicate Apart(x: Area, y: Area) {
    x.base + x.size <= y.base || y.base + y.size <= x.base
  }

  predicate Within(x: Area, y: Area) {
    y.base <= x.base && x.base + x.size <= y.base + y.size
  }

  datatype Arena = Arena(
    blocks: seq<Area>,
    usage: nat,
    cur: nat,
    remain: nat,
    regions: seq<Area>,   // everything handed out, in order
    requested: nat,       // total size of the requests
    aligned: nat          // how many of them were aligned requests
  )

  const EMPTY := Arena([], 0, 0, 0, [], 0, 0)

  /** `base` is the address the environment gives to a new block, if one is needed. */
  datatype Op = Plain(size: nat, base: nat) | Aligned(size: nat, base: nat)

  function Slot(cur: nat): nat {
    if cur % ALIGN == 0 then 0 else ALIGN - cur % ALIGN
  }

  /** Does the request fit what is left of the current block? */
  predicate Fits(a: Arena, op: Op) {
    match op
    case Plain(size, _) => a.remain > size
    case Aligned(size, _) => size + Slot(a.cur) <= a.remain
  }

  function BlockFor(op: Op): Area {
    Area(op.base, if op.size >= LARGE_SIZE then op.size else BLOCK_SIZE)
  }

  /** What callers and the environment owe: a positive size, and a new block apart from all others. */
  predicate Enabled(a: Arena, op: Op) {
    op.size > 0 &&
    (!Fits(a, op) ==>
      op.base > 0 && op.base % ALIGN == 0 && forall i :: 0 <= i < |a.blocks| ==> Apart(a.blocks[i], BlockFor(op)))
  }

  /** The region handed out. */
  function Result(a: Arena, op: Op): Area {
    if !Fits(a, op) then Area(op.base, op.size)
    else if op.Plain? then Area(a.cur, op.size)
    else Area(a.cur + Slot(a.cur), op.size)
  }

  function Apply(a: Arena, op: Op): Arena
    requires Enabled(a, op)
  {
    var b := a.(regions := a.regions + [Result(a, op)], requested := a.requested + op.size,
                aligned := a.aligned + if op.Aligned? then 1 else 0);
    if Fits(a, op) then
      var taken := op.size + if op.Aligned? then Slot(a.cur) else 0;
      b.(cur := a.cur + taken, remain := a.remain - taken)
    else
      var n := BlockFor(op);
      var c := b.(blocks := a.blocks + [n], usage := a.usage + n.size);
      if op.size >= LARGE_SIZE then c
      else c.(cur := op.base + op.size, remain := BLOCK_SIZE - op.size)
  }

  ghost predicate IsRun(ops: seq<Op>, a: Arena) {
    if ops == [] then a == EMPTY
    else
      var n := |ops| - 1;
      exists p :: IsRun(ops[..n], p) && Enabled(p, ops[n]) && a == Apply(p, ops[n])
  }

  // ---------- Memory safety ----------

  predicate AllApart(s: seq<Area>) {
    forall i, j :: 0 <= i < j < |s| ==> Apart(s[i], s[j])
  }

  /** The unused rest of the current block. */
  function Free(a: Arena): Area {
    Area(a.cur, a.remain)
  }

  predicate InSome(x: Area, blocks: seq<Area>) {
    exists i :: 0 <= i < |blocks| && Within(x, blocks[i])
  }

  predicate RegionsOwned(a: Arena) {
    forall r :: r in a.regions ==> r.size > 0 && InSome(r, a.blocks)
  }

  predicate FreeIsFree(a: Arena) {
    && (a.remain > 0 ==> InSome(Free(a), a.blocks))
    && forall r :: r in a.regions ==> a.remain > 0 ==> Apart(r, Free(a))
  }

  function TotalSize(s: seq<Area>): nat {
    if s == [] then 0 else TotalSize(s[..|s| - 1]) + s[|s| - 1].size
  }

  ghost predicate Sound(a: Arena) {
    && AllApart(a.blocks) && AllApart(a.regions) && RegionsOwned(a) && FreeIsFree(a)
    && a.usage == TotalSize(a.blocks)
  }

  lemma OwnedStaysOwned(x: Area, blocks: seq<Area>, n: Area)
    requires InSome(x, blocks)
    ensures InSome(x, blocks + [n])
  {
    var i :| 0 <= i < |blocks| && Within(x, blocks[i]);
    assert (blocks + [n])[i] == blocks[i];
  }

  /** A region of an old block is apart from anything in a new block. */
  lemma OldApartFromNew(x: Area, blocks: seq<Area>, y: Area, n: Area)
    requires InSome(x, blocks) && Within(y, n) && forall i :: 0 <= i < |blocks| ==> Apart(blocks[i], n)
    ensures Apart(x, y)
  {
  }

  lemma FittingStep(a: Arena, op: Op)
    requires Sound(a) && Enabled(a, op) && Fits(a, op)
    ensures Sound(Apply(a, op))
  {
    var b, r := Apply(a, op), Result(a, op);
    var i :| 0 <= i < |a.blocks| && Within(Free(a), a.blocks[i]);
    assert Within(r, a.blocks[i]) && Within(Free(b), a.blocks[i]);
    forall q | q in b.regions ensures q.size > 0 && InSome(q, b.blocks) && (b.remain > 0 ==> Apart(q, Free(b))) {
      if q in a.regions {
        assert Apart(q, Free(a));
      }
    }
    forall k | 0 <= k < |a.regions| ensures Apart(a.regions[k], r) {
      assert a.regions[k] in a.regions;
    }
  }

  lemma FallbackOwned(a: Arena, op: Op)
    requires Sound(a) && Enabled(a, op) && !Fits(a, op)
    ensures RegionsOwned(Apply(a, op)) && FreeIsFree(Apply(a, op))
  {
    var b, r, n := Apply(a, op), Result(a, op), BlockFor(op);
    assert b.blocks[|a.blocks|] == n && Within(r, n);
    if a.remain > 0 {
      OwnedStaysOwned(Free(a), a.blocks, n);
      OldApartFromNew(Free(a), a.blocks, r, n);
    }
    forall q | q in b.regions ensures q.size > 0 && InSome(q, b.blocks) && (b.remain > 0 ==> Apart(q, Free(b))) {
      if q in a.regions {
        OwnedStaysOwned(q, a.blocks, n);
        if op.size < LARGE_SIZE {
          OldApartFromNew(q, a.blocks, Free(b), n);
        }
      }
    }
  }

  lemma ApartExtends(s: seq<Area>, x: Area)
    requires AllApart(s) && forall k :: 0 <= k < |s| ==> Apart(s[k], x)
    ensures AllApart(s + [x])
  {
  }

  lemma FallbackStep(a: Arena, op: Op)
    requires Sound(a) && Enabled(a, op) && !Fits(a, op)
    ensures Sound(Apply(a, op))
  {
    var b, r, n := Apply(a, op), Result(a, op), BlockFor(op);
    FallbackOwned(a, op);
    forall k | 0 <= k < |a.regions| ensures Apart(a.regions[k], r) {
      assert a.regions[k] in a.regions;
      OldApartFromNew(a.regions[k], a.blocks, r, n);
    }
    ApartExtends(a.regions, r);
    ApartExtends(a.blocks, n);
    assert TotalSize(b.blocks) == TotalSize(a.blocks) + n.size by { assert b.blocks[..|a.blocks|] == a.blocks; }
    hide AllApart;
    hide InSome;
    hide TotalSize;
  }

  /** Over every run: regions lie in owned blocks, are pairwise disjoint, and the usage is the blocks' total size. */
  lemma {:induction false} EveryRunIsSound(ops: seq<Op>, a: Arena)
    requires IsRun(ops, a)
    ensures Sound(a)
  {
    if ops != [] {
      var n := |ops| - 1;
      var p :| IsRun(ops[..n], p) && Enabled(p, ops[n]) && a == Apply(p, ops[n]);
      EveryRunIsSound(ops[..n], p);
      if Fits(p, ops[n]) {
        FittingStep(p, ops[n]);
      } else {
        FallbackStep(p, ops[n]);
      }
    }
  }

  function Sizes(ops: seq<Op>): nat {
    if ops == [] then 0 else Sizes(ops[..|ops| - 1]) + ops[|ops| - 1].size
  }

  function AlignedCount(ops: seq<Op>): nat {
    if ops == [] then 0 else AlignedCount(ops[..|ops| - 1]) + if ops[|ops| - 1].Aligned? then 1 else 0
  }

  /** Over every run: one region for each request, in order, of its size, and aligned where that was asked for. */
  lemma {:induction false} EveryRequestIsServed(ops: seq<Op>, a: Arena)
    requires IsRun(ops, a)
    ensures |a.regions| == |ops| && a.requested == Sizes(ops) && a.aligned == AlignedCount(ops)
    ensures forall i :: 0 <= i < |ops| ==>
      a.regions[i].size == ops[i].size && (ops[i].Aligned? ==> a.regions[i].base % ALIGN == 0)
  {
    hide Apply;
    hide Enabled;
    if ops != [] {
      var n := |ops| - 1;
      var p :| IsRun(ops[..n], p) && Enabled(p, ops[n]) && a == Apply(p, ops[n]);
      EveryRequestIsServed(ops[..n], p);
      RequestIsServed(p, ops[n]);
    }
  }

  lemma RequestIsServed(a: Arena, op: Op)
    requires Enabled(a, op)
    ensures var b, r := Apply(a, op), Result(a, op);
      && b.regions == a.regions + [r] && r.size == op.size && (op.Aligned? ==> r.base % ALIGN == 0)
      && b.requested == a.requested + op.size && b.aligned == a.aligned + if op.Aligned? then 1 else 0
  {
    if op.Aligned? {
      AlignedResult(a, op);
    }
  }

  /** A plain request for exactly what is left opens a new block; an aligned one at an aligned place uses it up. */
  lemma ExactFit(a: Arena, base: nat)
    requires a.remain > 0
    ensures Enabled(a, Plain(a.remain, base)) ==>
      var b := Apply(a, Plain(a.remain, base));
      |b.blocks| == |a.blocks| + 1 && b.regions == a.regions + [Area(base, a.remain)]
    ensures a.cur % ALIGN == 0 ==>
      Enabled(a, Aligned(a.remain, base)) &&
      var b := Apply(a, Aligned(a.remain, base));
      b.blocks == a.blocks && b.remain == 0 && b.regions == a.regions + [Area(a.cur, a.remain)]
  {
  }

  /** An aligned request returns a multiple of the pointer size, wherever it is served from. */
  lemma AlignedResult(a: Arena, op: Op)
    requires Enabled(a, op) && op.Aligned?
    ensures Result(a, op).base % ALIGN == 0
  {
  }

  // ---------- Space ----------

  /** Bytes of the current block that are used or abandoned to padding. */
  function Spent(a: Arena): int {
    BLOCK_SIZE - a.remain
  }

  /** Requests, plus at most 7 bytes of padding for each aligned one. */
  function Charge(a: Arena): nat {
    a.requested + (ALIGN - 1) * a.aligned
  }

  /** The current block aside, each retired block carried at least `useful` charged bytes. */
  predicate Frugal(a: Arena, useful: nat) {
    && a.remain <= BLOCK_SIZE && (a.cur + a.remain) % ALIGN == 0
    && (a.cur == 0 ==> a.remain == 0 && useful * a.usage <= BLOCK_SIZE * Charge(a))
    && (a.cur > 0 ==> useful * (a.usage - BLOCK_SIZE) <= BLOCK_SIZE * (Charge(a) - Spent(a)))
  }

  lemma FrugalFits(a: Arena, op: Op, useful: nat)
    requires Frugal(a, useful) && Enabled(a, op) && Fits(a, op)
    ensures Frugal(Apply(a, op), useful)
  {
    var b := Apply(a, op);
    assert Charge(b) - Spent(b) >= Charge(a) - Spent(a);
  }

  lemma FrugalLarge(a: Arena, op: Op, useful: nat)
    requires Frugal(a, useful) && Enabled(a, op) && !Fits(a, op) && op.size >= LARGE_SIZE && useful <= BLOCK_SIZE
    ensures Frugal(Apply(a, op), useful)
  {
    var b := Apply(a, op);
    assert b.usage == a.usage + op.size && Charge(b) >= Charge(a) + op.size;
    assert useful * op.size <= BLOCK_SIZE * op.size;
    assert useful * (a.usage + op.size) == useful * a.usage + useful * op.size;
    assert useful * (a.usage + op.size - BLOCK_SIZE) == useful * (a.usage - BLOCK_SIZE) + useful * op.size;
  }

  lemma FrugalRetire(a: Arena, op: Op, useful: nat)
    requires Frugal(a, useful) && Enabled(a, op) && !Fits(a, op) && op.size < LARGE_SIZE
    requires a.cur > 0 ==> Spent(a) >= useful
    ensures Frugal(Apply(a, op), useful)
  {
    var b := Apply(a, op);
    assert b.usage == a.usage + BLOCK_SIZE && Charge(b) - Spent(b) >= Charge(a);
    if a.cur > 0 {
      assert useful * a.usage == useful * (a.usage - BLOCK_SIZE) + useful * BLOCK_SIZE;
      assert useful * BLOCK_SIZE <= Spent(a) * BLOCK_SIZE;
    }
  }

  lemma FrugalStep(a: Arena, op: Op, useful: nat)
    requires Frugal(a, useful) && Enabled(a, op)
    requires useful <= 3073
    ensures Frugal(Apply(a, op), useful)
  {
    if Fits(a, op) {
      FrugalFits(a, op, useful);
    } else if op.size >= LARGE_SIZE {
      FrugalLarge(a, op, useful);
    } else {
      LittleIsLeft(a, op);
      FrugalRetire(a, op, useful);
    }
  }

  /** A small request fails only when less than 1024 bytes are left: padding ends where the block does. */
  lemma LittleIsLeft(a: Arena, op: Op)
    requires !Fits(a, op) && op.size < LARGE_SIZE && (a.cur + a.remain) % ALIGN == 0
    ensures a.remain < LARGE_SIZE
  {
  }

  lemma {:induction false} EveryRunIsFrugal(ops: seq<Op>, a: Arena, useful: nat)
    requires IsRun(ops, a) && useful <= 3073
    ensures Frugal(a, useful)
    ensures (forall op :: op in ops ==> op.Plain?) ==> a.aligned == 0
  {
    if ops != [] {
      var n := |ops| - 1;
      var p :| IsRun(ops[..n], p) && Enabled(p, ops[n]) && a == Apply(p, ops[n]);
      assert ops == ops[..n] + [ops[n]];
      EveryRunIsFrugal(ops[..n], p, useful);
      FrugalStep(p, ops[n], useful);
    }
  }

  /** In every run of plain requests a retired block abandons at most 1023 of its 4096 bytes. */
  lemma SpaceBound(ops: seq<Op>, a: Arena)
    requires IsRun(ops, a) && forall op :: op in ops ==> op.Plain?
    ensures 3073 * (a.usage - BLOCK_SIZE) <= BLOCK_SIZE * a.requested
  {
    EveryRunIsFrugal(ops, a, 3073);
  }

  /** In every run whatsoever, when each aligned request is charged 7 bytes of padding. */
  lemma MixedSpaceBound(ops: seq<Op>, a: Arena)
    requires IsRun(ops, a)
    ensures 3073 * (a.usage - BLOCK_SIZE) <= BLOCK_SIZE * (a.requested + 7 * a.aligned)
  {
    EveryRunIsFrugal(ops, a, 3073);
  }

  /** The plain bound is attained but for the block in use: every retired block abandons 1023 bytes. */
  lemma {:induction false} BoundIsTight(k: nat) returns (ops: seq<Op>, a: Arena)
    ensures IsRun(ops, a) && forall op :: op in ops ==> op.Plain?
    ensures a.usage == BLOCK_SIZE * (k + 1) && a.requested == 3073 * k + 1023
    ensures a.remain == 3073 && forall b :: b in a.blocks ==> b.base + b.size <= BLOCK_SIZE * (k + 2)
  {
    hide Apply;
    hide Enabled;
    if k == 0 {
      assert Enabled(EMPTY, Plain(1023, BLOCK_SIZE)) by {
        NewBlockAllowed(EMPTY, BLOCK_SIZE);
      }
      ops, a := NextOp([], EMPTY, 1023, BLOCK_SIZE);
    } else {
      ops, a := BoundIsTight(k - 1);
      ops, a := NextOp(ops, a, 1023, 0);
      ops, a := NextOp(ops, a, 1023, 0);
      ops, a := NextOp(ops, a, 4, 0);
      NewBlockAllowed(a, BLOCK_SIZE * (k + 1));
      ops, a := NextOp(ops, a, 1023, BLOCK_SIZE * (k + 1));
    }
  }

  lemma NewBlockAllowed(a: Arena, base: nat)
    requires base > 0 && base % ALIGN == 0 && forall b :: b in a.blocks ==> b.base + b.size <= base
    ensures Enabled(a, Plain(1023, base))
  {
  }

  /** One more plain request, small enough not to get a block of its own. */
  lemma NextOp(ops: seq<Op>, a: Arena, size: nat, base: nat) returns (more: seq<Op>, b: Arena)
    requires IsRun(ops, a) && forall op :: op in ops ==> op.Plain?
    requires 0 < size < LARGE_SIZE && (a.remain > size || Enabled(a, Plain(size, base)))
    ensures more == ops + [Plain(size, base)] && IsRun(more, b) && forall op :: op in more ==> op.Plain?
    ensures b.requested == a.requested + size
    ensures a.remain > size ==> b.blocks == a.blocks && b.usage == a.usage && b.remain == a.remain - size
    ensures a.remain <= size ==>
      b.blocks == a.blocks + [Area(base, BLOCK_SIZE)] && b.usage == a.usage + BLOCK_SIZE && b.remain == BLOCK_SIZE - size
  {
    more, b := ops + [Plain(size, base)], Apply(a, Plain(size, base));
    assert more[..|ops|] == ops;
  }
}

/** The allocator object. */
module ArenaObject {
  import opened ArenaModel

  class BufferPool {
    var blocks: seq<Area>
    var memoryUsage: nat
    var curPtr: nat
    var curRemain: nat
    ghost var history: Arena

    ghost predicate Valid()
      reads this
    {
      && history.blocks == blocks && history.usage == memoryUsage
      && history.cur == curPtr && history.remain == curRemain && Sound(history)
    }

    constructor ()
      ensures Valid() && history == EMPTY
    {
      blocks, memoryUsage, curPtr, curRemain, history := [], 0, 0, 0, EMPTY;
    }

    method AllocateNewBlock(size: nat, base: nat) returns (result: nat)
      modifies this`blocks, this`memoryUsage
      ensures result == base && blocks == old(blocks) + [Area(base, size)] && memoryUsage == old(memoryUsage) + size
    {
      result := base;
      blocks := blocks + [Area(base, size)];
      memoryUsage := memoryUsage + size;
    }

    method AllocateFallback(size: nat, base: nat) returns (result: nat)
      modifies this`blocks, this`memoryUsage, this`curPtr, this`curRemain
      ensures result == base
      ensures var n := if size >= LARGE_SIZE then size else BLOCK_SIZE;
        blocks == old(blocks) + [Area(base, n)] && memoryUsage == old(memoryUsage) + n
      ensures if size >= LARGE_SIZE then curPtr == old(curPtr) && curRemain == old(curRemain)
              else curPtr == base + size && curRemain == BLOCK_SIZE - size
    {
      if size >= LARGE_SIZE {
        result := AllocateNewBlock(size, base);
        return;
      }
      curPtr := AllocateNewBlock(BLOCK_SIZE, base);
      curRemain := BLOCK_SIZE;
      result := curPtr;
      curPtr := curPtr + size;
      curRemain := curRemain - size;
    }

    /** `allocate`: the new region is apart from all earlier ones and inside an owned block. */
    method Allocate(size: nat, base: nat) returns (result: nat)
      requires Valid() && Enabled(history, Plain(size, base))
      modifies this
      ensures Valid() && history == Apply(old(history), Plain(size, base))
      ensures Area(result, size) == Result(old(history), Plain(size, base))
      ensures history.regions == old(history.regions) + [Area(result, size)]
      ensures InSome(Area(result, size), blocks)
      ensures forall r :: r in old(history.regions) ==> Apart(r, Area(result, size))
    {
      ghost var op := Plain(size, base);
      Handed(history, op);
      if curRemain > size {
        result := curPtr;
        curPtr := curPtr + size;
        curRemain := curRemain - size;
      } else {
        result := AllocateFallback(size, base);
      }
      history := Apply(history, op);
    }

    /** `allocate_align`: the same, at a multiple of the pointer size. */
    method AllocateAlign(size: nat, base: nat) returns (result: nat)
      requires Valid() && Enabled(history, Aligned(size, base))
      modifies this
      ensures Valid() && history == Apply(old(history), Aligned(size, base))
      ensures Area(result, size) == Result(old(history), Aligned(size, base))
      ensures history.regions == old(history.regions) + [Area(result, size)]
      ensures result % ALIGN == 0 && InSome(Area(result, size), blocks)
      ensures forall r :: r in old(history.regions) ==> Apart(r, Area(result, size))
    {
      ghost var op := Aligned(size, base);
      Handed(history, op);
      AlignedResult(history, op);
      var mod := curPtr % ALIGN;
      var slot := if mod == 0 then 0 else ALIGN - mod;
      var needed := size + slot;
      if needed > curRemain {
        result := AllocateFallback(size, base);
      } else {
        result := curPtr + slot;
        curPtr := curPtr + needed;
        curRemain := curRemain - needed;
      }
      history := Apply(history, op);
    }

    lemma Handed(a: Arena, op: Op)
      requires Sound(a) && Enabled(a, op)
      ensures Sound(Apply(a, op)) && InSome(Result(a, op), Apply(a, op).blocks)
      ensures forall r :: r in a.regions ==> Apart(r, Result(a, op))
    {
      if Fits(a, op) {
        FittingStep(a, op);
      } else {
        FallbackStep(a, op);
      }
      var s := Apply(a, op).regions;
      assert s[|a.regions|] == Result(a, op) && s[|a.regions|] in s;
      forall r | r in a.regions ensures Apart(r, Result(a, op)) {
        var i :| 0 <= i < |a.regions| && a.regions[i] == r;
        assert s[i] == r;
      }
    }
  }
}
