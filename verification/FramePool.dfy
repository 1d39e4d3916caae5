// The frame pool: how an arena is cut into slots, the reference-counted free
// list, and the two watermarks with hysteresis.
module FramePool {
  import opened Numbers

  // --- Layout ---------------------------------------------------------------------

  const WORD: nat := 0x1_0000_0000_0000_0000   // addresses and sizes
  const COUNT: nat := 0x1_0000_0000            // frame counts

  ghost predicate IsPowerOfTwo(n: nat) { exists k: nat :: n == Pow2(k) }

  // Adding align - 1 and masking the low bits away, in unsigned arithmetic; for
  // a power of two the mask takes off the remainder.
  function AlignUp(value: nat, align: nat): nat
    requires align > 0
  {
    var x := (value + align - 1) % WORD;
    x - x % align
  }

  datatype Layout = Layout(base: nat, elementSize: nat, count: nat)

  function Max(a: nat, b: nat): nat { if a < b then b else a }

  function ObjectAlign(preferred: nat, minAlign: nat, payloadAlign: nat): nat {
    Max(Max(preferred, minAlign), payloadAlign)
  }

  function MakeLayout(start: nat, arenaSize: nat, frameSize: nat, header: nat,
                      preferred: nat, minAlign: nat, payloadAlign: nat, dataAlign: nat): Layout
    requires minAlign > 0
    requires AlignUp(header + frameSize, ObjectAlign(preferred, minAlign, payloadAlign)) > 0
  {
    var align := ObjectAlign(preferred, minAlign, payloadAlign);
    if dataAlign > payloadAlign then Layout(0, 0, 0)
    else
      var size := AlignUp(header + frameSize, align);
      var base := AlignUp(start, align);
      var end := start + arenaSize;
      if base >= end then Layout(0, size, 0)
      else Layout(base, size, (end - base) / size % COUNT)
  }

  // Where slot i starts.
  function Slot(l: Layout, i: nat): nat { l.base + Times(i, l.elementSize) }

  function Times(q: nat, n: nat): nat { q * n }

  ghost predicate Multiple(x: nat, n: nat) { exists q: nat :: x == Times(q, n) }

  lemma AlignUpFacts(value: nat, align: nat)
    requires align > 0 && value + align <= WORD
    ensures value <= AlignUp(value, align) < value + align && Multiple(AlignUp(value, align), align)
  {
    var x := value + align - 1;
    var q := x / align;
    assert x == Times(q, align) + x % align;
    assert AlignUp(value, align) == Times(q, align);
  }

  lemma SumOfMultiples(a: nat, b: nat, n: nat)
    requires Multiple(a, n) && Multiple(b, n)
    ensures Multiple(a + b, n)
  {
    var p: nat :| a == Times(p, n);
    var q: nat :| b == Times(q, n);
    TimesAdds(p, q, n);
  }

  lemma TimesAdds(p: nat, q: nat, n: nat)
    ensures Times(p, n) + Times(q, n) == Times(p + q, n)
  {
  }

  lemma ManyMultiples(i: nat, size: nat, n: nat)
    requires Multiple(size, n)
    ensures Multiple(Times(i, size), n)
  {
    var q: nat :| size == Times(q, n);
    assert Times(i, size) == Times(i * q, n) by {
      Regroup(i, q, n);
    }
  }

  lemma Regroup(a: nat, b: nat, d: nat)
    ensures a * (b * d) == (a * b) * d
  {
  }

  lemma {:induction false} PowersDivide(j: nat, k: nat)
    requires j <= k
    ensures Multiple(Pow2(k), Pow2(j))
    decreases k - j
  {
    if j == k {
      assert Pow2(k) == Times(1, Pow2(j));
    } else {
      PowersDivide(j, k - 1);
      SumOfMultiples(Pow2(k - 1), Pow2(k - 1), Pow2(j));
    }
  }

  lemma {:induction false} PowersOrdered(j: nat, k: nat)
    requires j < k
    ensures Pow2(j) < Pow2(k)
    decreases k - j
  {
    if j < k - 1 {
      PowersOrdered(j, k - 1);
    }
  }

  lemma SmallerPowerDivides(a: nat, b: nat)
    requires IsPowerOfTwo(a) && IsPowerOfTwo(b) && a <= b
    ensures Multiple(b, a)
  {
    var j: nat :| a == Pow2(j);
    var k: nat :| b == Pow2(k);
    if k < j {
      PowersOrdered(k, j);
    }
    PowersDivide(j, k);
  }

  lemma MultipleOfMultiple(x: nat, a: nat, b: nat)
    requires Multiple(x, b) && Multiple(b, a)
    ensures Multiple(x, a)
  {
    var q: nat :| x == Times(q, b);
    ManyMultiples(q, b, a);
  }

  // What the sizes handed to the layout are: powers of two for the alignments,
  // a header that keeps the payload aligned, nothing near the end of memory.
  ghost predicate SaneSizes(start: nat, arenaSize: nat, frameSize: nat, header: nat,
                            preferred: nat, minAlign: nat, payloadAlign: nat) {
    var align := ObjectAlign(preferred, minAlign, payloadAlign);
    && IsPowerOfTwo(minAlign) && IsPowerOfTwo(payloadAlign) && (preferred == 0 || IsPowerOfTwo(preferred))
    && header > 0 && Multiple(header, payloadAlign)
    && header + frameSize + align <= WORD && start + align <= WORD && start + arenaSize < WORD
  }

  lemma SaneAlign(start: nat, arenaSize: nat, frameSize: nat, header: nat,
                  preferred: nat, minAlign: nat, payloadAlign: nat)
    requires SaneSizes(start, arenaSize, frameSize, header, preferred, minAlign, payloadAlign)
    ensures
      var align := ObjectAlign(preferred, minAlign, payloadAlign);
      minAlign > 0 && align > 0 && Multiple(align, payloadAlign) && AlignUp(header + frameSize, align) > 0
  {
    var align := ObjectAlign(preferred, minAlign, payloadAlign);
    assert IsPowerOfTwo(align);
    SmallerPowerDivides(payloadAlign, align);
    AlignUpFacts(header + frameSize, align);
  }

  // Every slot lies inside the arena, is aligned, keeps its payload aligned, and
  // overlaps no other.
  lemma SlotsAreSound(start: nat, arenaSize: nat, frameSize: nat, header: nat,
                      preferred: nat, minAlign: nat, payloadAlign: nat, dataAlign: nat, i: nat, j: nat)
    requires SaneSizes(start, arenaSize, frameSize, header, preferred, minAlign, payloadAlign)
    requires minAlign > 0 && AlignUp(header + frameSize, ObjectAlign(preferred, minAlign, payloadAlign)) > 0
    requires
      i <= j < MakeLayout(start, arenaSize, frameSize, header, preferred, minAlign, payloadAlign, dataAlign).count
    ensures
      var l := MakeLayout(start, arenaSize, frameSize, header, preferred, minAlign, payloadAlign, dataAlign);
      && start <= Slot(l, i) && header + frameSize <= l.elementSize && Slot(l, i) + l.elementSize <= start + arenaSize
      && Multiple(Slot(l, i), ObjectAlign(preferred, minAlign, payloadAlign))
      && Multiple(Slot(l, i) + header, payloadAlign)
      && (i < j ==> Slot(l, i) + l.elementSize <= Slot(l, j))
  {
    hide Multiple;
    hide IsPowerOfTwo;
    hide AlignUp;
    hide Times;
    var l := MakeLayout(start, arenaSize, frameSize, header, preferred, minAlign, payloadAlign, dataAlign);
    var align := ObjectAlign(preferred, minAlign, payloadAlign);
    SaneAlign(start, arenaSize, frameSize, header, preferred, minAlign, payloadAlign);
    AlignUpFacts(header + frameSize, align);
    AlignUpFacts(start, align);
    SlotFits(i, start + arenaSize - l.base, l.elementSize);
    ManyMultiples(i, l.elementSize, align);
    SumOfMultiples(l.base, Times(i, l.elementSize), align);
    MultipleOfMultiple(Slot(l, i), payloadAlign, align);
    SumOfMultiples(Slot(l, i), header, payloadAlign);
    if i < j {
      SlotsApart(i, j, l.elementSize);
    }
  }

  // No slot is given away: less than one alignment is lost in front of the first
  // slot and inside each, and one more slot would not fit.
  lemma SlotsFillTheArena(start: nat, arenaSize: nat, frameSize: nat, header: nat,
                          preferred: nat, minAlign: nat, payloadAlign: nat, dataAlign: nat)
    requires SaneSizes(start, arenaSize, frameSize, header, preferred, minAlign, payloadAlign)
    requires minAlign > 0 && AlignUp(header + frameSize, ObjectAlign(preferred, minAlign, payloadAlign)) > 0
    requires arenaSize < COUNT
    ensures
      var l := MakeLayout(start, arenaSize, frameSize, header, preferred, minAlign, payloadAlign, dataAlign);
      var align := ObjectAlign(preferred, minAlign, payloadAlign);
      if dataAlign > payloadAlign then l.count == 0
      else
        && l.elementSize < header + frameSize + align
        && (if l.count == 0 then arenaSize < align + l.elementSize
            else l.base < start + align && Slot(l, l.count) + l.elementSize > start + arenaSize)
  {
    hide Multiple;
    hide IsPowerOfTwo;
    hide AlignUp;
    hide Times;
    var l := MakeLayout(start, arenaSize, frameSize, header, preferred, minAlign, payloadAlign, dataAlign);
    var align := ObjectAlign(preferred, minAlign, payloadAlign);
    SaneAlign(start, arenaSize, frameSize, header, preferred, minAlign, payloadAlign);
    AlignUpFacts(header + frameSize, align);
    AlignUpFacts(start, align);
    if dataAlign <= payloadAlign && AlignUp(start, align) < start + arenaSize {
      NextSlot(start + arenaSize - l.base, l.elementSize);
    }
  }

  lemma NextSlot(usable: nat, size: nat)
    requires size > 0 && usable < COUNT
    ensures Times(usable / size % COUNT, size) + size > usable
    ensures usable / size % COUNT == 0 ==> usable < size
  {
    var q := usable / size;
    assert q <= usable;
    assert usable == q * size + usable % size;
  }

  lemma SlotsApart(i: nat, j: nat, size: nat)
    requires i < j
    ensures Times(i, size) + size <= Times(j, size)
  {
    assert (i + 1) * size <= j * size;
  }

  lemma SlotFits(i: nat, usable: nat, size: nat)
    requires size > 0 && i < usable / size % COUNT
    ensures Times(i, size) + size <= usable
  {
    var q := usable / size;
    assert q % COUNT <= q;
    assert q * size <= usable;
    SlotsApart(i, q, size);
  }

  // --- Allocation -----------------------------------------------------------------------

  datatype Level = Normal | LowWater

  // Slots are named by their index.  `notes` is the history of the transitions
  // reported, oldest first.
  datatype Pool = Pool(
    total: nat, freeList: seq<nat>, refs: seq<nat>, inUse: nat,
    low: nat, high: nat, level: Level, notes: seq<Level>)

  // A percentage of the total in unsigned 32-bit arithmetic.
  function Threshold(total: nat, pct: nat): nat { total * pct % COUNT / 100 }

  function InitFree(n: nat): seq<nat> {
    if n == 0 then [] else [n - 1] + InitFree(n - 1)
  }

  function Init(total: nat): Pool {
    Pool(total, InitFree(total), seq(total, _ => 0), 0,
         Threshold(total, 20), Threshold(total, 60), Normal, [])
  }

  function FreeCount(p: Pool): int { p.total - p.inUse }

  function CheckLow(p: Pool): Pool {
    if p.level == Normal && FreeCount(p) <= p.low
    then p.(level := LowWater, notes := p.notes + [LowWater])
    else p
  }

  function CheckHigh(p: Pool): Pool {
    if p.level == LowWater && FreeCount(p) > p.high
    then p.(level := Normal, notes := p.notes + [Normal])
    else p
  }

  function Take(p: Pool): Pool {
    if p.freeList == [] || p.freeList[0] >= |p.refs| then p
    else CheckLow(p.(freeList := p.freeList[1..], refs := p.refs[p.freeList[0] := 1], inUse := p.inUse + 1))
  }

  // The assertion the code makes: the frame has references.
  predicate HasRefs(p: Pool, f: nat) { f < |p.refs| && p.refs[f] > 0 }

  function Release(p: Pool, f: nat): Pool
    requires HasRefs(p, f)
  {
    var q := p.(refs := p.refs[f := p.refs[f] - 1]);
    if q.refs[f] > 0 then q
    else if q.inUse == 0 then q
    else CheckHigh(q.(freeList := [f] + q.freeList, inUse := q.inUse - 1))
  }

  // Reference counts are eight bits wide.
  function AddRef(p: Pool, f: nat): Pool
    requires HasRefs(p, f)
  {
    p.(refs := p.refs[f := (p.refs[f] + 1) % 256])
  }

  function Configure(p: Pool, lowPct: nat, highPct: nat): Pool {
    var q := p.(low := Threshold(p.total, lowPct), high := Threshold(p.total, highPct));
    var level := if FreeCount(q) <= q.low then LowWater else Normal;
    q.(level := level, notes := if level != q.level then q.notes + [level] else q.notes)
  }

  datatype Event = DoTake | DoRelease(f: nat) | DoAddRef(f: nat) | DoConfigure(lowPct: nat, highPct: nat)

  // What the code asserts of its callers, and that no count overflows.
  predicate Allowed(p: Pool, e: Event) {
    match e
    case DoTake => true
    case DoRelease(f) => HasRefs(p, f)
    case DoAddRef(f) => HasRefs(p, f) && p.refs[f] < 255
    case DoConfigure(lowPct, highPct) => lowPct < highPct <= 100
  }

  function Step(p: Pool, e: Event): Pool
    requires Allowed(p, e)
  {
    match e
    case DoTake => Take(p)
    case DoRelease(f) => Release(p, f)
    case DoAddRef(f) => AddRef(p, f)
    case DoConfigure(lowPct, highPct) => Configure(p, lowPct, highPct)
  }

  ghost predicate Run(p: Pool, es: seq<Event>, q: Pool)
    decreases |es|
  {
    if es == [] then p == q else Allowed(p, es[0]) && Run(Step(p, es[0]), es[1..], q)
  }

  // --- Invariants --------------------------------------------------------------------------

  ghost predicate NoDuplicates(s: seq<nat>) { forall i, j :: 0 <= i < j < |s| ==> s[i] != s[j] }

  // Every slot is free or allocated: no slot is free twice, a free slot has no
  // references, an allocated one has.
  ghost predicate SlotInv(p: Pool) {
    && |p.refs| == p.total
    && |p.freeList| + p.inUse == p.total
    && NoDuplicates(p.freeList)
    && (forall f :: f in p.freeList <==> 0 <= f < p.total && p.refs[f] == 0)
    && (forall f :: 0 <= f < p.total ==> p.refs[f] < 256)
  }

  ghost predicate Hysteresis(p: Pool) {
    && (p.level == Normal ==> FreeCount(p) > p.low)
    && (p.level == LowWater ==> FreeCount(p) <= p.high)
  }

  ghost predicate LevelInv(p: Pool) { Hysteresis(p) && p.low <= p.high }

  // The thresholds a configuration gives are in the right order.
  ghost predicate Ordered(total: nat, es: seq<Event>) {
    forall i :: 0 <= i < |es| && es[i].DoConfigure? ==>
      Threshold(total, es[i].lowPct) <= Threshold(total, es[i].highPct)
  }

  // Hysteresis now and in every run from here whose configurations are in order.
  ghost predicate AlwaysHysteresis(p: Pool) {
    forall es, q :: Run(p, es, q) && Ordered(p.total, es) ==> Hysteresis(q)
  }

  ghost predicate NotesInv(p: Pool) {
    && (forall i :: 0 <= i < |p.notes| ==> p.notes[i] == if i % 2 == 0 then LowWater else Normal)
    && p.level == if |p.notes| % 2 == 0 then Normal else LowWater
  }

  lemma {:induction false} InitFreeFacts(n: nat)
    ensures |InitFree(n)| == n && NoDuplicates(InitFree(n))
    ensures forall f :: f in InitFree(n) <==> 0 <= f < n
    decreases n
  {
    if n > 0 {
      InitFreeFacts(n - 1);
      var rest := InitFree(n - 1);
      assert forall i :: 0 <= i < |rest| ==> rest[i] in rest;
    }
  }

  lemma InitInv(total: nat)
    ensures SlotInv(Init(total)) && NotesInv(Init(total))
    ensures Hysteresis(Init(total)) <==> total > 0
    ensures total > 0 ==> (LevelInv(Init(total)) <==> Threshold(total, 20) <= Threshold(total, 60))
  {
    InitFreeFacts(total);
    if total > 0 {
      ThresholdBelow(total, 20);
    }
  }

  // Below 2^32 / 100 frames nothing wraps and every configuration is in order.
  lemma SmallPoolsAreOrdered(total: nat, lowPct: nat, highPct: nat)
    requires lowPct < highPct <= 100 && total * 100 < COUNT
    ensures Threshold(total, lowPct) <= Threshold(total, highPct)
  {
    assert total * lowPct <= total * highPct <= total * 100;
    NoWrap(total * lowPct);
    NoWrap(total * highPct);
  }

  lemma NoWrap(x: nat)
    requires x < COUNT
    ensures x % COUNT == x
  {
  }

  // There it is the percentage, rounded down.
  lemma ThresholdIsPercentage(total: nat, pct: nat)
    requires pct <= 100 && total * 100 < COUNT
    ensures 100 * Threshold(total, pct) <= total * pct < 100 * Threshold(total, pct) + 100
  {
    assert total * pct <= total * 100;
    NoWrap(total * pct);
  }

  // Also where the product wraps.
  lemma ThresholdBelow(total: nat, pct: nat)
    requires total > 0 && pct < 100
    ensures Threshold(total, pct) < total
  {
    var x := total * pct;
    assert x <= total * 99;
    RemainderBelow(x);
  }

  lemma RemainderBelow(x: nat)
    ensures x % COUNT <= x
  {
  }

  lemma TakeKeepsSlots(p: Pool)
    requires SlotInv(p)
    ensures SlotInv(Take(p))
  {
    if p.freeList != [] {
      var f, rest := p.freeList[0], p.freeList[1..];
      assert f in p.freeList;
      forall g ensures g in rest <==> g in p.freeList && g != f {
        if g in rest {
          var i :| 0 <= i < |rest| && rest[i] == g;
          assert p.freeList[i + 1] == g;
        }
        if g in p.freeList && g != f {
          var i :| 0 <= i < |p.freeList| && p.freeList[i] == g;
          assert rest[i - 1] == g;
        }
      }
    }
  }

  lemma ReleaseKeepsSlots(p: Pool, f: nat)
    requires SlotInv(p) && HasRefs(p, f)
    ensures SlotInv(Release(p, f))
    ensures p.refs[f] == 1 ==> p.inUse > 0
  {
    assert f !in p.freeList;
    if p.refs[f] == 1 {
      NotAllFree(p, f);
      var q := Release(p, f);
      assert q.freeList == [f] + p.freeList;
    }
  }

  // Distinct free slots that leave one out are fewer than all.
  lemma NotAllFree(p: Pool, f: nat)
    requires SlotInv(p) && f < p.total && f !in p.freeList
    ensures |p.freeList| < p.total
  {
    Pigeonhole(p.freeList, p.total, f);
  }

  lemma {:induction false} Pigeonhole(s: seq<nat>, n: nat, f: nat)
    requires NoDuplicates(s) && f < n && f !in s && forall x :: x in s ==> x < n
    ensures |s| < n
  {
    ElementsFacts(s);
    assert Elements(s) <= Below(n) - {f};
    SubsetSize(Elements(s), Below(n) - {f});
  }

  function Below(n: nat): (r: set<nat>)
    ensures |r| == n && forall x: nat :: x in r <==> x < n
  {
    if n == 0 then {} else Below(n - 1) + {n - 1}
  }

  function Elements(s: seq<nat>): set<nat> {
    if s == [] then {} else Elements(s[1..]) + {s[0]}
  }

  lemma {:induction false} ElementsFacts(s: seq<nat>)
    requires NoDuplicates(s)
    ensures |Elements(s)| == |s| && forall x :: x in Elements(s) <==> x in s
    decreases |s|
  {
    if s != [] {
      ElementsFacts(s[1..]);
      forall k | 1 <= k < |s| ensures s[k] != s[0] {
      }
      assert s[0] !in s[1..];
      assert s == [s[0]] + s[1..];
    }
  }

  lemma {:induction false} SubsetSize(a: set<nat>, b: set<nat>)
    requires a <= b
    ensures |a| <= |b|
    decreases |a|
  {
    if a != {} {
      var x :| x in a;
      SubsetSize(a - {x}, b - {x});
    }
  }

  lemma AddRefKeepsSlotsIff(p: Pool, f: nat)
    requires SlotInv(p) && HasRefs(p, f)
    ensures SlotInv(AddRef(p, f)) <==> p.refs[f] < 255
  {
    assert f !in p.freeList;
  }

  lemma NotesKept(p: Pool, e: Event)
    requires NotesInv(p) && Allowed(p, e)
    ensures NotesInv(Step(p, e))
  {
    hide Threshold;
  }

  lemma LevelsKept(p: Pool, e: Event)
    requires SlotInv(p) && LevelInv(p) && Allowed(p, e) && Ordered(p.total, [e])
    ensures LevelInv(Step(p, e))
  {
    hide Threshold;
    hide NoDuplicates;
    assert [e][0] == e;
  }

  // Only a take that leaves no more than `low` ends the normal level, and only a
  // last reference given back that leaves more than `high` restores it; in
  // between the level stays, whichever of the two it is.
  lemma LevelChanges(p: Pool, e: Event)
    requires SlotInv(p) && Allowed(p, e) && !e.DoConfigure?
    ensures
      var q := Step(p, e);
      var freed := e.DoRelease? && p.refs[e.f] == 1;
      var taken := e.DoTake? && FreeCount(p) > 0;
      && FreeCount(q) == FreeCount(p) + (if freed then 1 else 0) - (if taken then 1 else 0)
      && q.level ==
        (if taken && FreeCount(q) <= p.low then LowWater else if freed && FreeCount(q) > p.high then Normal
         else p.level)
      && q.notes == (if q.level == p.level then p.notes else p.notes + [q.level])
    ensures
      var q := Step(p, e);
      var taken := e.DoTake? && FreeCount(p) > 0;
      (forall f :: 0 <= f < p.total ==>
        q.refs[f] == (if taken && f == p.freeList[0] then 1
                      else p.refs[f] + (if e == DoAddRef(f) then 1 else 0) - (if e == DoRelease(f) then 1 else 0)))
  {
    hide NoDuplicates;
    if e.DoRelease? {
      ReleaseKeepsSlots(p, e.f);
    }
    if p.freeList != [] {
      assert p.freeList[0] in p.freeList;
    }
  }

  // A configuration sets the level at once, to low water exactly at or below `low`.
  lemma ConfiguredLevel(p: Pool, lowPct: nat, highPct: nat)
    requires lowPct < highPct <= 100 && p.total * 100 < COUNT
    ensures
      var q := Step(p, DoConfigure(lowPct, highPct));
      && (q.level == LowWater <==> FreeCount(p) <= q.low)
      && 100 * q.low <= p.total * lowPct < 100 * q.low + 100
      && 100 * q.high <= p.total * highPct < 100 * q.high + 100
      && q == p.(low := q.low, high := q.high, level := q.level, notes := q.notes)
  {
    hide Threshold;
    ThresholdIsPercentage(p.total, lowPct);
    ThresholdIsPercentage(p.total, highPct);
  }

  lemma StepKeepsInv(p: Pool, e: Event)
    requires SlotInv(p) && NotesInv(p) && Allowed(p, e)
    ensures SlotInv(Step(p, e)) && NotesInv(Step(p, e))
    ensures Step(p, e).total == p.total
  {
    hide SlotInv;
    hide NotesInv;
    NotesKept(p, e);
    match e
    case DoTake => TakeKeepsSlots(p);
    case DoRelease(f) => ReleaseKeepsSlots(p, f);
    case DoAddRef(f) => AddRefKeepsSlotsIff(p, f);
    case DoConfigure(_, _) => SameSlots(p, Step(p, e));
  }

  lemma SameSlots(p: Pool, q: Pool)
    requires SlotInv(p) && q.freeList == p.freeList && q.refs == p.refs && q.inUse == p.inUse && q.total == p.total
    ensures SlotInv(q)
  {
  }

  // In every run: free and allocated slots are disjoint and all of them, and the
  // reported transitions alternate.
  lemma {:induction false} EveryRunKeepsInv(p: Pool, es: seq<Event>, q: Pool)
    requires SlotInv(p) && NotesInv(p) && Run(p, es, q)
    ensures SlotInv(q) && NotesInv(q) && q.total == p.total
    ensures LevelInv(p) && Ordered(p.total, es) ==> LevelInv(q)
    decreases |es|
  {
    hide SlotInv;
    hide LevelInv;
    hide NotesInv;
    hide Step;
    if es != [] {
      StepKeepsInv(p, es[0]);
      if LevelInv(p) && Ordered(p.total, es) {
        assert Ordered(p.total, [es[0]]);
        LevelsKept(p, es[0]);
        assert Ordered(p.total, es[1..]);
      }
      EveryRunKeepsInv(Step(p, es[0]), es[1..], q);
    }
  }

  // --- Hysteresis ---------------------------------------------------------------------------

  lemma {:induction false} RunFollows(p: Pool, e: Event, es: seq<Event>, q: Pool)
    requires Allowed(p, e) && Run(Step(p, e), es, q)
    ensures Run(p, [e] + es, q)
  {
    hide Step;
    assert ([e] + es)[1..] == es;
  }

  // How many frames are taken, or released, until the hysteresis breaks.
  ghost function StepsLeft(p: Pool): int {
    if !Hysteresis(p) then 0
    else if p.level == Normal then FreeCount(p) - p.low + 1
    else p.high - FreeCount(p) + 1
  }

  // With the thresholds crossed, a run of takes, or of releases, breaks the
  // hysteresis from whatever state.
  lemma {:induction false} CrossedThresholdsBreak(p: Pool) returns (es: seq<Event>, q: Pool)
    requires SlotInv(p) && p.high < p.low < p.total
    ensures Run(p, es, q) && Ordered(p.total, es) && !Hysteresis(q)
    decreases StepsLeft(p), 1, 0
  {
    if !Hysteresis(p) {
      es, q := [], p;
    } else if p.level == Normal {
      TakeKeepsSlots(p);
      var r := Take(p);
      TakeOne(p);
      es, q := CrossedThresholdsBreak(r);
      RunFollows(p, DoTake, es, q);
      es := [DoTake] + es;
    } else {
      var f := SomeInUse(p);
      es, q := ReleaseUntilBroken(p, f);
    }
  }

  lemma TakeOne(p: Pool)
    requires SlotInv(p) && p.high < p.low && p.level == Normal && FreeCount(p) > p.low
    ensures
      var r := Take(p);
      && r.total == p.total && r.low == p.low && r.high == p.high && FreeCount(r) == FreeCount(p) - 1
      && (if FreeCount(p) == p.low + 1 then !Hysteresis(r) else r.level == Normal)
  {
    assert p.freeList[0] in p.freeList;
  }

  // Releasing one frame until its last reference is gone, and then the next.
  lemma {:induction false} ReleaseUntilBroken(p: Pool, f: nat) returns (es: seq<Event>, q: Pool)
    requires SlotInv(p) && p.high < p.low < p.total && p.level == LowWater && FreeCount(p) <= p.high && HasRefs(p, f)
    ensures Run(p, es, q) && Ordered(p.total, es) && !Hysteresis(q)
    decreases StepsLeft(p), 0, p.refs[f]
  {
    ReleaseKeepsSlots(p, f);
    var r := Release(p, f);
    ReleaseOne(p, f);
    if p.refs[f] > 1 {
      es, q := ReleaseUntilBroken(r, f);
    } else {
      es, q := CrossedThresholdsBreak(r);
    }
    RunFollows(p, DoRelease(f), es, q);
    es := [DoRelease(f)] + es;
  }

  lemma ReleaseOne(p: Pool, f: nat)
    requires SlotInv(p) && p.high < p.low && p.level == LowWater && FreeCount(p) <= p.high && HasRefs(p, f)
    ensures
      var r := Release(p, f);
      && r.total == p.total && r.low == p.low && r.high == p.high
      && (p.refs[f] > 1 ==> r.level == LowWater && FreeCount(r) == FreeCount(p) && r.refs == p.refs[f := p.refs[f] - 1])
      && (p.refs[f] == 1 ==>
        FreeCount(r) == FreeCount(p) + 1 && (if FreeCount(p) == p.high then !Hysteresis(r) else r.level == LowWater))
  {
    ReleaseKeepsSlots(p, f);
  }

  lemma SomeInUse(p: Pool) returns (f: nat)
    requires SlotInv(p) && FreeCount(p) < p.total
    ensures HasRefs(p, f)
  {
    if forall g: nat :: g < p.total ==> g in p.freeList {
      ElementsFacts(p.freeList);
      SubsetSize(Below(p.total), Elements(p.freeList));
    }
    f :| f < p.total && f !in p.freeList;
  }

  // From a sound state, hysteresis holds in all of the future if and only if the
  // thresholds are in order.
  lemma OrderedIffSound(p: Pool)
    requires SlotInv(p) && NotesInv(p) && Hysteresis(p) && p.low < p.total
    ensures AlwaysHysteresis(p) <==> p.low <= p.high
  {
    hide Run;
    hide Ordered;
    hide SlotInv;
    hide NotesInv;
    if p.low <= p.high {
      forall es, q | Run(p, es, q) && Ordered(p.total, es) ensures Hysteresis(q) {
        EveryRunKeepsInv(p, es, q);
      }
    } else {
      var es, q := CrossedThresholdsBreak(p);
    }
  }

  // A fresh pool is sound for ever if and only if it has frames and its default
  // thresholds are in order; slots and notes are sound in any case.
  lemma PoolIsSound(total: nat)
    ensures AlwaysHysteresis(Init(total)) <==> total > 0 && Threshold(total, 20) <= Threshold(total, 60)
    ensures forall es, q :: Run(Init(total), es, q) ==> SlotInv(q) && NotesInv(q)
  {
    hide Run;
    hide Ordered;
    hide SlotInv;
    hide NotesInv;
    InitInv(total);
    forall es, q | Run(Init(total), es, q) ensures SlotInv(q) && NotesInv(q) {
      EveryRunKeepsInv(Init(total), es, q);
    }
    if total > 0 {
      ThresholdBelow(total, 20);
      OrderedIffSound(Init(total));
    } else {
      RunNowhere(Init(0));
    }
  }

  lemma RunNowhere(p: Pool)
    ensures Run(p, [], p) && Ordered(p.total, [])
  {
  }

  // Configuring a pool makes it sound for ever if and only if the new thresholds
  // are in order.
  lemma ConfigureIsSoundIff(p: Pool, lowPct: nat, highPct: nat)
    requires SlotInv(p) && NotesInv(p) && p.total > 0 && lowPct < highPct <= 100
    ensures AlwaysHysteresis(Configure(p, lowPct, highPct))
       <==> Threshold(p.total, lowPct) <= Threshold(p.total, highPct)
  {
    hide Run;
    hide Ordered;
    hide SlotInv;
    hide NotesInv;
    hide Threshold;
    var q := Configure(p, lowPct, highPct);
    ThresholdBelow(p.total, lowPct);
    StepKeepsInv(p, DoConfigure(lowPct, highPct));
    if Hysteresis(q) {
      OrderedIffSound(q);
    } else {
      RunNowhere(q);
    }
  }

  // Witnesses: the empty pool, and a total whose wrapped default thresholds are
  // crossed.
  lemma EmptyPoolIsNotNormal()
    ensures !LevelInv(Init(0))
  {
  }

  lemma ThresholdsCanCross()
    ensures Threshold(71_582_789, 20) > Threshold(71_582_789, 60)
  {
  }

  // --- The pool object ---------------------------------------------------------------------------

  class FrameMemPool {
    const total: nat
    var freeList: seq<nat>
    var refs: array<nat>
    var inUse: nat
    var low: nat
    var high: nat
    var level: Level
    ghost var notes: seq<Level>

    ghost function View(): Pool
      reads this, refs
    {
      Pool(total, freeList, refs[..], inUse, low, high, level, notes)
    }

    constructor (total: nat)
      ensures View() == Init(total) && fresh(refs)
    {
      this.total := total;
      var list: seq<nat> := [];
      var i := 0;
      while i < total
        invariant i <= total && list == InitFree(i)
      {
        list := [i] + list;
        i := i + 1;
      }
      freeList := list;
      refs := new nat[total](_ => 0);
      inUse, level, notes := 0, Normal, [];
      low, high := Threshold(total, 20), Threshold(total, 60);
      new;
      assert refs[..] == seq(total, _ => 0);
    }

    method CheckLowWatermark() returns (notify: bool)
      modifies this`level, this`notes
      ensures View() == CheckLow(old(View()))
      ensures notify <==> notes != old(notes)
    {
      notify := level == Normal && total - inUse <= low;
      if notify {
        level := LowWater;
        notes := notes + [LowWater];
      }
    }

    method CheckHighWatermark() returns (notify: bool)
      modifies this`level, this`notes
      ensures View() == CheckHigh(old(View()))
      ensures notify <==> notes != old(notes)
    {
      notify := level == LowWater && total - inUse > high;
      if notify {
        level := Normal;
        notes := notes + [Normal];
      }
    }

    method TakeFrame() returns (f: int)
      requires SlotInv(View())
      modifies this, refs
      ensures refs == old(refs)
      ensures View() == Take(old(View())) && SlotInv(View())
      ensures if old(freeList) == [] then f == -1 else f == old(freeList)[0] && 0 <= f < refs.Length && refs[f] == 1
    {
      TakeKeepsSlots(View());
      if freeList == [] {
        return -1;
      }
      assert freeList[0] in freeList;
      f := freeList[0];
      freeList := freeList[1..];
      refs[f] := 1;
      inUse := inUse + 1;
      var notify := CheckLowWatermark();
    }

    method ReleaseFrame(f: nat)
      requires SlotInv(View()) && HasRefs(View(), f)
      modifies this, refs
      ensures refs == old(refs)
      ensures View() == Release(old(View()), f) && SlotInv(View())
    {
      ReleaseKeepsSlots(View(), f);
      refs[f] := refs[f] - 1;
      if refs[f] == 0 {
        freeList := [f] + freeList;
        inUse := inUse - 1;
        var notify := CheckHighWatermark();
      }
    }

    method AddReference(f: nat)
      requires SlotInv(View()) && HasRefs(View(), f) && refs[f] < 255
      modifies refs
      ensures View() == AddRef(old(View()), f) && SlotInv(View())
    {
      AddRefKeepsSlotsIff(View(), f);
      refs[f] := (refs[f] + 1) % 256;
    }

    method ConfigWatermark(lowPct: nat, highPct: nat)
      requires lowPct < highPct <= 100
      modifies this`low, this`high, this`level, this`notes
      ensures View() == Configure(old(View()), lowPct, highPct)
    {
      low := Threshold(total, lowPct);
      high := Threshold(total, highPct);
      var oldLevel := level;
      if total - inUse <= low {
        level := LowWater;
      } else {
        level := Normal;
      }
      if oldLevel != level {
        notes := notes + [level];
      }
    }
  }
}
