// What a call of pmm_alloc or pmm_free does on the shared allocator between its
// start and its return, and that it returns.
module AllocatorCalls {
  import opened Words
  import opened Ranges
  import opened PhysicalMemory
  import opened Spinlock
  import opened SharedAllocator

  ghost predicate Idle(s: State, c: nat) {
    c in s.cpus && s.cpus[c].pc.Idle?
  }

  // CPU c, idle at first, makes a call with the first action; it is idle again
  // after the last one and not before. Other CPUs act in between as they like.
  ghost predicate IsCall(s: State, run: seq<(nat, Action)>, c: nat) {
    && |run| >= 2 && run[0].0 == c && (run[0].1.CallAlloc? || run[0].1.CallFree?)
    && Idle(s, c) && Idle(Exec(s, run), c)
    && forall k :: 0 < k < |run| ==> !Idle(Exec(s, run[..k]), c)
  }

  // The effect of a call that returns the given pointer: one whole allocation of
  // the rounded size, or nothing because nothing fits; or one whole free.
  ghost predicate HasEffect(m: Shared, t: Shared, c: nat, call: Action, result: Word) {
    match call
    case CallAlloc(size) =>
      AtomicAlloc(m, t, c, RoundUpPage(size), result) || (AtomicFailure(m, t, RoundUpPage(size)) && result == 0)
    case CallFree(at) => AtomicFree(m, t, c, at)
    case _ => false
  }

  ghost predicate SameBlocks(m: Shared, t: Shared) {
    t.list == m.list && t.held == m.held
  }

  // Action i of the run is c's and has the call's effect, for the pointer that is
  // returned at the end.
  ghost predicate EffectAt(s: State, run: seq<(nat, Action)>, c: nat, call: Action, i: int) {
    && 0 <= i < |run| && run[i].0 == c && c in Exec(s, run).cpus
    && HasEffect(Exec(s, run[..i]).m, Exec(s, run[..i + 1]).m, c, call, Exec(s, run).cpus[c].ptr)
  }

  // None of c's other actions changes the free list or anybody's blocks.
  ghost predicate QuietBut(s: State, run: seq<(nat, Action)>, c: nat, i: int) {
    forall j :: 0 <= j < |run| && j != i && run[j].0 == c ==> QuietAt(s, run, j)
  }

  ghost predicate QuietAt(s: State, run: seq<(nat, Action)>, j: int)
    requires 0 <= j < |run|
  {
    SameBlocks(Exec(s, run[..j]).m, Exec(s, run[..j + 1]).m)
  }

  // --------------------------------------------------------- before and after

  // The call has not taken effect yet.
  ghost predicate Underway(u: Cpu, call: Action) {
    match call
    case CallAlloc(size) =>
      && !u.freeing && u.n == RoundUpPage(size) && u.ptr == 0
      && (u.pc.Acquire? || u.pc.Head? || u.pc.Walk? || u.pc.Advance? || u.pc.Cut?)
    case CallFree(at) =>
      && u.freeing && u.ptr == at
      && (u.pc.WritePtr? || u.pc.WriteSize? || u.pc.Acquire? || u.pc.Head? || u.pc.Walk? || u.pc.Advance?
          || u.pc.WriteNext? || u.pc.LinkIn?)
    case _ => false
  }

  // It has.
  ghost predicate Finishing(u: Cpu) {
    u.pc.MergePrevious? || u.pc.GrowPrevious? || u.pc.MergeNext? || u.pc.GrowNext? || u.pc.Release?
  }

  lemma CallStarts(s: State, c: nat, call: Action, all: iset<int>)
    requires Inv(s, all) && Idle(s, c)
    requires call.CallAlloc? || (call.CallFree? && call.at in s.m.held && s.m.held[call.at].cpu == c)
    ensures Underway(Step(s, c, call).cpus[c], call) && Step(s, c, call).m == s.m
  {
  }

  lemma CallIsUnderway(s: State, c: nat, call: Action)
    requires Idle(s, c) && (call.CallAlloc? || call.CallFree?) && !Idle(Step(s, c, call), c)
    ensures Underway(Step(s, c, call).cpus[c], call) && Step(s, c, call).m == s.m
  {
  }

  lemma UnderwayStep(s: State, c: nat, call: Action, all: iset<int>)
    requires Inv(s, all) && c in s.cpus && Underway(s.cpus[c], call)
    ensures var t := Step(s, c, Run);
            && c in t.cpus
            && ((Underway(t.cpus[c], call) && SameBlocks(s.m, t.m)) ||
                (Finishing(t.cpus[c]) && HasEffect(s.m, t.m, c, call, t.cpus[c].ptr)))
  {
    hide Chain, Put, Load, LockOk, HeldOk, Conserved, Take, TakenAt, PutBackwardFirst, Touches, Grown, CutPages,
         LinkPages, Covers, ListShape;
    var u := s.cpus[c];
    if u.pc.Cut? {
      CutStores(s.m, c, u);
    } else if FindsNothing(s, c, Run) {
      NothingFits(s.m, c, u);
    }
  }

  lemma FinishingStep(s: State, c: nat)
    requires c in s.cpus && Finishing(s.cpus[c])
    ensures var t := Step(s, c, Run);
            && c in t.cpus && (Finishing(t.cpus[c]) || t.cpus[c].pc.Idle?)
            && SameBlocks(s.m, t.m) && t.cpus[c].ptr == s.cpus[c].ptr
  {
    hide Put, Load, Touches, Grown;
  }

  // Nothing but its own steps moves a CPU that is not idle.
  lemma OnlyOwnSteps(s: State, c: nat, d: nat, a: Action)
    requires c in s.cpus && !s.cpus[c].pc.Idle?
    ensures c in Step(s, d, a).cpus
    ensures d != c ==> Step(s, d, a).cpus[c] == s.cpus[c]
    ensures d == c && !a.Run? ==> Step(s, d, a) == s
  {
    hide Put, Load, Touches, Grown, AfterCut, AfterLinkIn, WalkNext, CutAt;
  }

  // ---------------------------------------------------------------- whole calls

  lemma ExecTail(s: State, run: seq<(nat, Action)>, k: int)
    requires 0 < k <= |run|
    ensures Exec(s, run[..k]) == Exec(Step(s, run[0].0, run[0].1), run[1..][..k - 1])
  {
    assert run[..k][0] == run[0] && run[..k][1..] == run[1..][..k - 1];
  }

  lemma ExecWhole(s: State, run: seq<(nat, Action)>)
    requires run != []
    ensures Exec(s, run) == Exec(Step(s, run[0].0, run[0].1), run[1..])
  {
  }

  lemma QuietTail(s: State, run: seq<(nat, Action)>, j: int)
    requires 0 < j < |run|
    ensures QuietAt(s, run, j) <==> QuietAt(Step(s, run[0].0, run[0].1), run[1..], j - 1)
  {
    ExecTail(s, run, j);
    ExecTail(s, run, j + 1);
  }

  // The first action, seen from the whole run.
  lemma FirstAction(s: State, run: seq<(nat, Action)>)
    requires run != []
    ensures Exec(s, run[..0]) == s && Exec(s, run[..1]) == Step(s, run[0].0, run[0].1)
  {
    ExecTail(s, run, 1);
    assert run[1..][..0] == [];
  }

  lemma {:induction false} FinishingIsQuiet(s: State, run: seq<(nat, Action)>, c: nat)
    requires c in s.cpus && Finishing(s.cpus[c]) && Idle(Exec(s, run), c)
    requires forall k :: 0 <= k < |run| ==> !Idle(Exec(s, run[..k]), c)
    ensures QuietBut(s, run, c, -1) && Exec(s, run).cpus[c].ptr == s.cpus[c].ptr
    decreases |run|
  {
    hide Step, SameBlocks;
    if run != [] {
      var d, a := run[0].0, run[0].1;
      var t := Step(s, d, a);
      OnlyOwnSteps(s, c, d, a);
      FinishingStep(s, c);
      FirstAction(s, run);
      forall k | 0 <= k < |run[1..]| ensures !Idle(Exec(t, run[1..][..k]), c) {
        ExecTail(s, run, k + 1);
      }
      if !Idle(t, c) {
        FinishingIsQuiet(t, run[1..], c);
      } else {
        LastAction(t, run[1..], c);
      }
      SameBlocksRefl(s.m);
      forall j | 0 <= j < |run| && run[j].0 == c ensures QuietAt(s, run, j) {
        if j > 0 {
          QuietTail(s, run, j);
        }
      }
    }
  }

  // A CPU that has become idle with the action before has no action left.
  lemma LastAction(t: State, rest: seq<(nat, Action)>, c: nat)
    requires Idle(t, c) && forall k :: 0 <= k < |rest| ==> !Idle(Exec(t, rest[..k]), c)
    ensures rest == [] && Exec(t, rest) == t
  {
    var none := rest[..0];
    assert none == [] && Exec(t, none) == t;
  }

  lemma SameBlocksRefl(m: Shared)
    ensures SameBlocks(m, m)
  {
  }

  lemma {:induction false} UnderwayTakesEffect(s: State, run: seq<(nat, Action)>, c: nat, call: Action, all: iset<int>)
    requires Inv(s, all) && c in s.cpus && Underway(s.cpus[c], call) && Idle(Exec(s, run), c)
    requires forall k :: 0 <= k < |run| ==> !Idle(Exec(s, run[..k]), c)
    ensures exists i :: EffectAt(s, run, c, call, i) && QuietBut(s, run, c, i)
    decreases |run|
  {
    hide Inv, Step, SameBlocks, HasEffect;
    assert run != [];
    var d, a := run[0].0, run[0].1;
    var t := Step(s, d, a);
    OnlyOwnSteps(s, c, d, a);
    StepKeepsInv(s, d, a, all);
    UnderwayStep(s, c, call, all);
    FirstAction(s, run);
    ExecWhole(s, run);
    SameBlocksRefl(s.m);
    forall k | 0 <= k < |run[1..]| ensures !Idle(Exec(t, run[1..][..k]), c) {
      ExecTail(s, run, k + 1);
    }
    if Underway(t.cpus[c], call) && (d != c || SameBlocks(s.m, t.m)) {
      UnderwayTakesEffect(t, run[1..], c, call, all);
      var i :| EffectAt(t, run[1..], c, call, i) && QuietBut(t, run[1..], c, i);
      EffectLater(s, run, c, call, i);
    } else {
      FinishingIsQuiet(t, run[1..], c);
      EffectNow(s, run, c, call);
    }
  }

  lemma EffectLater(s: State, run: seq<(nat, Action)>, c: nat, call: Action, i: int)
    requires run != []
    requires var t := Step(s, run[0].0, run[0].1); EffectAt(t, run[1..], c, call, i) && QuietBut(t, run[1..], c, i)
    requires run[0].0 == c ==> QuietAt(s, run, 0)
    ensures EffectAt(s, run, c, call, i + 1) && QuietBut(s, run, c, i + 1)
  {
    hide Step, HasEffect, QuietAt;
    var t := Step(s, run[0].0, run[0].1);
    ExecTail(s, run, i + 1);
    ExecTail(s, run, i + 2);
    forall j | 0 <= j < |run| && j != i + 1 && run[j].0 == c ensures QuietAt(s, run, j) {
      if j > 0 {
        QuietTail(s, run, j);
        assert QuietAt(t, run[1..], j - 1);
      }
    }
  }

  lemma EffectNow(s: State, run: seq<(nat, Action)>, c: nat, call: Action)
    requires run != [] && run[0].0 == c && c in Step(s, c, run[0].1).cpus && c in Exec(s, run).cpus
    requires var t := Step(s, c, run[0].1);
             && HasEffect(s.m, t.m, c, call, t.cpus[c].ptr) && QuietBut(t, run[1..], c, -1)
             && Exec(s, run).cpus[c].ptr == t.cpus[c].ptr
    ensures EffectAt(s, run, c, call, 0) && QuietBut(s, run, c, 0)
  {
    hide Step, HasEffect, QuietAt;
    FirstAction(s, run);
    forall j | 0 <= j < |run| && j != 0 && run[j].0 == c ensures QuietAt(s, run, j) {
      QuietTail(s, run, j);
      assert QuietAt(Step(s, c, run[0].1), run[1..], j - 1);
    }
  }

  // Linearisability of every call, in every interleaving from the state pmm_init
  // leaves: between the call and its return, exactly one of the CPU's actions has
  // an effect, and it is the whole effect that the call is asked for and that the
  // returned pointer tells.
  lemma CallTakesEffectOnce(start: State, prior: seq<(nat, Action)>, run: seq<(nat, Action)>, c: nat, all: iset<int>)
    requires Initial(start, all) && IsCall(Exec(start, prior), run, c)
    ensures var s := Exec(start, prior);
            exists i :: 0 < i && EffectAt(s, run, c, run[0].1, i) && QuietBut(s, run, c, i)
  {
    var s, call := Exec(start, prior), run[0].1;
    RunKeepsInv(start, prior, all);
    StepKeepsInv(s, c, call, all);
    hide Inv, Step, HasEffect;
    FirstAction(s, run);
    CallIsUnderway(s, c, call);
    SameBlocksRefl(s.m);
    var t := Step(s, c, call);
    forall k | 0 <= k < |run[1..]| ensures !Idle(Exec(t, run[1..][..k]), c) {
      ExecTail(s, run, k + 1);
    }
    UnderwayTakesEffect(t, run[1..], c, call, all);
    var i :| EffectAt(t, run[1..], c, call, i) && QuietBut(t, run[1..], c, i);
    EffectLater(s, run, c, call, i);
  }

  // ------------------------------------------------------------- calls return

  // k steps of c with nobody else moving.
  ghost function Alone(s: State, c: nat, k: nat): State
    decreases k
  {
    if k == 0 then s else Alone(Step(s, c, Run), c, k - 1)
  }

  // An upper bound of the steps that are left when nobody else holds the lock.
  ghost function Left(u: Cpu, length: nat): int {
    match u.pc
    case Idle => 0
    case Release => 1
    case GrowNext => 2
    case MergeNext => 3
    case GrowPrevious => 4
    case MergePrevious => 5
    case LinkIn => 6
    case WriteNext => 7
    case Cut => 7
    case Walk => 8 + 2 * (length - u.position)
    case Advance => 7 + 2 * (length - u.position)
    case Head => 9 + 2 * length
    case Acquire(spin) => (if spin.Pause? then 12 else if spin.Test? then 11 else 10) + 2 * length
    case WriteSize => 13 + 2 * length
    case WritePtr => 14 + 2 * length
  }

  ghost predicate Free(s: State, c: nat) {
    c in s.cpus && (s.m.lock == 0 || InSection(s.cpus[c].pc))
  }

  lemma LeftIsNat(s: State, c: nat, all: iset<int>)
    requires Inv(s, all) && c in s.cpus
    ensures 0 <= Left(s.cpus[c], |s.m.list|)
  {
    hide Chain, SharedOk, LockOk, Merging, Put, Load, Touches, Grown, HeaderAt;
  }

  ghost predicate LessLeft(s: State, t: State, c: nat) {
    && Free(s, c) && Free(t, c) && Left(t.cpus[c], |t.m.list|) < Left(s.cpus[c], |s.m.list|)
    && (t.cpus[c].pc.Idle? ==> t.m.lock == 0)
  }

  lemma LessOutside(s: State, c: nat)
    requires c in s.cpus && s.m.lock == 0
    requires var pc := s.cpus[c].pc; pc.WritePtr? || pc.WriteSize? || (pc.Acquire? && !pc.spin.Acquired?)
    ensures LessLeft(s, Step(s, c, Run), c)
  {
    hide Put, Load;
  }

  lemma LessInside(s: State, c: nat)
    requires c in s.cpus && s.m.lock == 1 && InSection(s.cpus[c].pc)
    requires var u := s.cpus[c];
             && (u.pc.Walk? ==> u.position <= |s.m.list|) && (u.pc.Advance? ==> u.position < |s.m.list|)
    ensures LessLeft(s, Step(s, c, Run), c)
  {
    hide Put, Load, Touches, Grown, Take, PutBackwardFirst, CutPages, CutHead, CutAt, LinkPages, LinkHead;
  }

  lemma FewerLeft(s: State, c: nat, all: iset<int>)
    requires Inv(s, all) && Free(s, c) && !s.cpus[c].pc.Idle?
    ensures LessLeft(s, Step(s, c, Run), c)
  {
    hide Chain, SharedOk, Merging, Put, Load, Touches, Grown, HeaderAt, Step, Left, LessLeft;
    if InSection(s.cpus[c].pc) {
      LessInside(s, c);
    } else {
      LessOutside(s, c);
    }
  }

  lemma {:induction false} FinishesAlone(s: State, c: nat, all: iset<int>) returns (k: nat)
    requires Inv(s, all) && Free(s, c) && Finishing(s.cpus[c])
    ensures var t := Alone(s, c, k);
            Idle(t, c) && t.m.lock == 0 && SameBlocks(s.m, t.m) && t.cpus[c].ptr == s.cpus[c].ptr
    decreases Left(s.cpus[c], |s.m.list|)
  {
    hide Inv, Step, Left;
    var t := Step(s, c, Run);
    StepKeepsInv(s, c, Run, all);
    FewerLeft(s, c, all);
    LeftIsNat(s, c, all);
    LeftIsNat(t, c, all);
    FinishingStep(s, c);
    var rest: nat := 0;
    if !t.cpus[c].pc.Idle? {
      rest := FinishesAlone(t, c, all);
    }
    k := rest + 1;
    assert Alone(t, c, 0) == t;
    assert Alone(s, c, k) == Alone(t, c, rest);
  }

  lemma {:induction false} ReturnsAlone(s: State, c: nat, call: Action, all: iset<int>) returns (k: nat)
    requires Inv(s, all) && Free(s, c) && Underway(s.cpus[c], call)
    ensures var t := Alone(s, c, k);
            Idle(t, c) && t.m.lock == 0 && HasEffect(s.m, t.m, c, call, t.cpus[c].ptr)
    decreases Left(s.cpus[c], |s.m.list|)
  {
    hide Inv, Step, Left, AtomicAlloc, AtomicFree, AtomicFailure;
    var t := Step(s, c, Run);
    StepKeepsInv(s, c, Run, all);
    FewerLeft(s, c, all);
    LeftIsNat(s, c, all);
    LeftIsNat(t, c, all);
    UnderwayStep(s, c, call, all);
    var rest;
    if Underway(t.cpus[c], call) && SameBlocks(s.m, t.m) {
      rest := ReturnsAlone(t, c, call, all);
    } else {
      rest := FinishesAlone(t, c, all);
    }
    k := rest + 1;
    assert Alone(s, c, k) == Alone(t, c, rest);
    EffectFrame(s.m, t.m, Alone(s, c, k).m, c, call, Alone(s, c, k).cpus[c].ptr);
  }

  lemma EffectFrame(m: Shared, t: Shared, x: Shared, c: nat, call: Action, result: Word)
    ensures SameBlocks(m, t) && HasEffect(t, x, c, call, result) ==> HasEffect(m, x, c, call, result)
    ensures HasEffect(m, t, c, call, result) && SameBlocks(t, x) ==> HasEffect(m, x, c, call, result)
  {
  }

  // A call of a CPU that runs by itself, with the lock free, starts, returns, has
  // its effect, and leaves the lock free.
  lemma CallReturns(start: State, prior: seq<(nat, Action)>, c: nat, call: Action, all: iset<int>) returns (k: nat)
    requires Initial(start, all)
    requires var s := Exec(start, prior);
             && Idle(s, c) && s.m.lock == 0
             && (call.CallAlloc? || (call.CallFree? && call.at in s.m.held && s.m.held[call.at].cpu == c))
    ensures var s := Exec(start, prior);
            var t := Alone(Step(s, c, call), c, k);
            && !Idle(Step(s, c, call), c)
            && Idle(t, c) && t.m.lock == 0 && HasEffect(s.m, t.m, c, call, t.cpus[c].ptr)
  {
    var s := Exec(start, prior);
    RunKeepsInv(start, prior, all);
    StepKeepsInv(s, c, call, all);
    CallStarts(s, c, call, all);
    hide Inv, Step, HasEffect;
    k := ReturnsAlone(Step(s, c, call), c, call, all);
  }

  // A CPU that waits for the lock, wherever it is in its loop, is inside within
  // three steps of its own once the lock word is clear.
  lemma WaiterGetsIn(s: State, c: nat) returns (k: nat)
    requires c in s.cpus && s.cpus[c].pc.Acquire? && !s.cpus[c].pc.spin.Acquired? && s.m.lock == 0
    ensures k <= 3 && c in Alone(s, c, k).cpus
    ensures Alone(s, c, k).cpus[c].pc.Head? && Alone(s, c, k).m.lock == 1 && Alone(s, c, k).m.holder == c
  {
    k := if s.cpus[c].pc.spin.Pause? then 3 else if s.cpus[c].pc.spin.Test? then 2 else 1;
    var t := Step(s, c, Run);
    assert Alone(s, c, k) == Alone(t, c, k - 1);
    if k > 1 {
      assert Alone(t, c, k - 1) == Alone(Step(t, c, Run), c, k - 2);
    }
    if k > 2 {
      assert Alone(Step(t, c, Run), c, 1) == Alone(Step(Step(t, c, Run), c, Run), c, 0);
    }
  }
}
