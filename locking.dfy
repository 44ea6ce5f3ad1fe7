/**
 The release-obligation discipline of `Protected<T, Protector>::Locker`, as values.

 A Locker either still owes its protector one `unlock` (its protector pointer is
 non-null: Holding) or does not (the pointer is null: Released). This module
 describes a whole sequential history of one `Protected` object: the payload,
 what the protector has been asked to do, and every Locker ever made from it.
 The classes in module `Protection` model the individual objects; the lemmas
 here state what holds across many calls.
 */
module Locking {

  datatype Option<T> = None | Some(value: T)

  /** The state of a Locker: Holding while its protector pointer is non-null. */
  datatype Obligation = Holding | Released

  /** How often the protector's `lock` and `unlock` have been called. */
  datatype Counts = Counts(acquires: nat, releases: nat)

  /** Every `lock` not yet matched by an `unlock` is owed by exactly one Holding Locker. */
  predicate Balanced(c: Counts, holding: nat) {
    c.acquires == c.releases + holding
  }

  /** A Locker that is alive (with its obligation), or one whose destructor has run. */
  datatype Slot = Live(owes: Obligation) | Gone

  function Mark(x: Slot): nat {
    if x == Live(Holding) then 1 else 0
  }

  /** The number of Lockers that are alive and Holding. */
  function Holders(s: seq<Slot>): nat {
    if s == [] then 0 else Mark(s[0]) + Holders(s[1..])
  }

  /**
   The state of one `Protected` object: its payload, its protector's call counts,
   whether the protector is a recursive mutex, and the Lockers made from it, in
   the order they were constructed.
   */
  datatype World<T> = World(payload: T, counts: Counts, recursive: bool, lockers: seq<Slot>)

  predicate Valid<T>(w: World<T>) {
    Balanced(w.counts, Holders(w.lockers)) &&
    (!w.recursive ==> Holders(w.lockers) <= 1)
  }

  /** A freshly constructed `Protected`: the payload as given, a default-constructed protector. */
  function Init<T>(payload: T, recursive: bool): (w: World<T>)
    ensures Valid(w)
    ensures w.payload == payload && w.recursive == recursive && w.lockers == []
    ensures w.counts.acquires == 0 && w.counts.releases == 0
  {
    World(payload, Counts(0, 0), recursive, [])
  }

  /** The calls a client can make. */
  datatype Op<T> =
    | LockOp                      // Protected::Lock(): a new Locker, which calls lock()
    | CopyOp(src: nat)            // the Locker copy constructor, copying Locker number src
    | DestroyOp(target: nat)      // the Locker destructor, on Locker number target
    | AssignOp(via: nat, v: T)    // `*locker = v` through Locker number via

  /**
   One call. `None` stands for a call the model refuses: re-locking a plain mutex
   the (single, sequential) caller already holds, which is undefined for
   `std::mutex`; copying or destroying a Locker that does not exist or was
   destroyed; assigning the payload through a Locker that is not Holding (the
   corrected access rule, see `ReachesPayload`).
   A call never changes the kind of mutex, never drops a Locker, and adds at
   most one.
   */
  function Step<T>(w: World<T>, op: Op<T>): (r: Option<World<T>>)
    ensures r.Some? ==> r.value.recursive == w.recursive
    ensures r.Some? ==> |w.lockers| <= |r.value.lockers| <= |w.lockers| + 1
    ensures op.AssignOp? ==> (r.Some? <==> ReachesPayload(w, op.via))
  {
    match op
    case LockOp =>
      if !w.recursive && Holders(w.lockers) > 0 then None
      else Some(w.(counts := Counts(w.counts.acquires + 1, w.counts.releases),
                   lockers := w.lockers + [Live(Holding)]))
    case CopyOp(i) =>
      if i < |w.lockers| && w.lockers[i].Live? then
        Some(w.(lockers := w.lockers[i := Live(Released)] + [w.lockers[i]]))
      else None
    case DestroyOp(i) =>
      if i < |w.lockers| && w.lockers[i].Live? then
        var c := if w.lockers[i].owes == Holding
                 then Counts(w.counts.acquires, w.counts.releases + 1)
                 else w.counts;
        Some(w.(counts := c, lockers := w.lockers[i := Gone]))
      else None
    case AssignOp(i, v) =>
      if ReachesPayload(w, i) then Some(w.(payload := v)) else None
  }

  /**
   What the accessors of the C++ Locker check before handing out the payload:
   nothing but that the Locker exists, since the copy constructor clears the
   source's protector pointer and leaves its pointer to the wrapper in place.
   */
  predicate ReachesPayloadAsWritten<T>(w: World<T>, i: nat) {
    i < |w.lockers| && w.lockers[i].Live?
  }

  /** The access rule the design intends, and the one this model uses: only a Holding Locker. */
  predicate ReachesPayload<T>(w: World<T>, i: nat) {
    i < |w.lockers| && w.lockers[i] == Live(Holding)
  }

  /**
   A sequence of calls, stopping at the first that cannot proceed. The kind of
   mutex is kept, and each call adds at most one Locker.
   */
  function Run<T>(w: World<T>, ops: seq<Op<T>>): (r: Option<World<T>>)
    ensures r.Some? ==> r.value.recursive == w.recursive
    ensures r.Some? ==> |w.lockers| <= |r.value.lockers| <= |w.lockers| + |ops|
    decreases |ops|
  {
    if ops == [] then Some(w)
    else match Step(w, ops[0])
      case None => None
      case Some(w') => Run(w', ops[1..])
  }

  /** n rounds of "Lock(), then let the Locker go out of scope"; the first new Locker gets number first. */
  function Cycles<T>(n: nat, first: nat): seq<Op<T>>
    decreases n
  {
    if n == 0 then [] else [LockOp, DestroyOp(first)] + Cycles(n - 1, first + 1)
  }

  // ---------------------------------------------------------------- Holders

  lemma {:induction false} HoldersAppend(s: seq<Slot>, x: Slot)
    ensures Holders(s + [x]) == Holders(s) + Mark(x)
  {
    if s == [] {
      assert [x][1..] == [];
    } else {
      assert (s + [x])[1..] == s[1..] + [x];
      HoldersAppend(s[1..], x);
    }
  }

  lemma {:induction false} HoldersUpdate(s: seq<Slot>, i: nat, x: Slot)
    requires i < |s|
    ensures Holders(s[i := x]) + Mark(s[i]) == Holders(s) + Mark(x)
  {
    if i == 0 {
      assert s[i := x][1..] == s[1..];
    } else {
      assert s[i := x][1..] == s[1..][i - 1 := x];
      HoldersUpdate(s[1..], i - 1, x);
    }
  }

  /** No Holding Locker is left exactly when the holder count is zero. */
  lemma {:induction false} NoHolders(s: seq<Slot>)
    ensures Holders(s) == 0 <==> forall k :: 0 <= k < |s| ==> s[k] != Live(Holding)
  {
    if s != [] {
      NoHolders(s[1..]);
      assert forall k :: 1 <= k < |s| ==> s[k] == s[1..][k - 1];
    }
  }

  lemma {:induction false} HolderCounted(s: seq<Slot>, i: nat)
    requires i < |s| && s[i] == Live(Holding)
    ensures Holders(s) >= 1
  {
    if i > 0 {
      HolderCounted(s[1..], i - 1);
    }
  }

  lemma {:induction false} TwoHoldersCounted(s: seq<Slot>, i: nat, j: nat)
    requires i < j < |s| && s[i] == Live(Holding) && s[j] == Live(Holding)
    ensures Holders(s) >= 2
  {
    if i == 0 {
      HolderCounted(s[1..], j - 1);
    } else {
      TwoHoldersCounted(s[1..], i - 1, j - 1);
    }
  }

  // ---------------------------------------------------------------- one call

  /** Every call keeps the balance, and a plain mutex never has two holders. */
  lemma StepPreservesValid<T>(w: World<T>, op: Op<T>)
    requires Valid(w)
    ensures Step(w, op).Some? ==> Valid(Step(w, op).value)
  {
    if Step(w, op).None? { return; }
    match op
    case LockOp =>
      HoldersAppend(w.lockers, Live(Holding));
    case CopyOp(i) =>
      HoldersUpdate(w.lockers, i, Live(Released));
      HoldersAppend(w.lockers[i := Live(Released)], w.lockers[i]);
    case DestroyOp(i) =>
      HoldersUpdate(w.lockers, i, Gone);
    case AssignOp(_, _) =>
  }

  /** Lock() calls `lock` once, and the new Locker is the last one and Holding. */
  lemma LockAcquiresOnce<T>(w: World<T>)
    requires Valid(w) && (w.recursive || Holders(w.lockers) == 0)
    ensures Step(w, LockOp).Some?
    ensures var w' := Step(w, LockOp).value;
      w'.counts == Counts(w.counts.acquires + 1, w.counts.releases) &&
      |w'.lockers| == |w.lockers| + 1 && w'.lockers[|w.lockers|] == Live(Holding) &&
      w'.lockers[..|w.lockers|] == w.lockers && w'.payload == w.payload &&
      w'.recursive == w.recursive && Holders(w'.lockers) == Holders(w.lockers) + 1
  {
    HoldersAppend(w.lockers, Live(Holding));
  }

  /**
   On a plain mutex that is already held, Lock() is refused. For `std::mutex`
   re-locking by the owner is undefined (it may deadlock or throw).
   */
  lemma LockWhileHeldDeadlocks<T>(w: World<T>, i: nat)
    requires !w.recursive && i < |w.lockers| && w.lockers[i] == Live(Holding)
    ensures Step(w, LockOp) == None
  {
    HolderCounted(w.lockers, i);
  }

  /** The destructor calls `unlock` once exactly when the Locker is Holding, and never `lock`. */
  lemma DestroyReleasesIffHolding<T>(w: World<T>, i: nat)
    requires i < |w.lockers| && w.lockers[i].Live?
    ensures Step(w, DestroyOp(i)).Some?
    ensures var w' := Step(w, DestroyOp(i)).value;
      w'.counts.acquires == w.counts.acquires &&
      (w'.counts.releases == w.counts.releases + 1 <==> w.lockers[i] == Live(Holding)) &&
      (w'.counts.releases == w.counts.releases <==> w.lockers[i] == Live(Released)) &&
      w'.lockers[i] == Gone && Holders(w'.lockers) + Mark(w.lockers[i]) == Holders(w.lockers) &&
      w'.payload == w.payload && w'.recursive == w.recursive && |w'.lockers| == |w.lockers| &&
      (forall k :: 0 <= k < |w.lockers| && k != i ==> w'.lockers[k] == w.lockers[k])
  {
    HoldersUpdate(w.lockers, i, Gone);
  }

  /**
   The copy constructor hands the obligation over: the copy owes what the source
   owed, the source owes nothing, no `lock` or `unlock` is issued and the number
   of Holding Lockers does not change.
   */
  lemma CopyTransfers<T>(w: World<T>, i: nat)
    requires i < |w.lockers| && w.lockers[i].Live?
    ensures Step(w, CopyOp(i)).Some?
    ensures var w' := Step(w, CopyOp(i)).value;
      w'.counts == w.counts && |w'.lockers| == |w.lockers| + 1 &&
      w'.lockers[|w.lockers|] == w.lockers[i] && w'.lockers[i] == Live(Released) &&
      Holders(w'.lockers) == Holders(w.lockers) &&
      w'.payload == w.payload && w'.recursive == w.recursive &&
      (forall k :: 0 <= k < |w.lockers| && k != i ==> w'.lockers[k] == w.lockers[k])
  {
    HoldersUpdate(w.lockers, i, Live(Released));
    HoldersAppend(w.lockers[i := Live(Released)], w.lockers[i]);
  }

  /**
   No call turns a Locker that is Released or destroyed back into a Holding one:
   the obligation to unlock never returns to a Locker that gave it up.
   */
  lemma StepNeverReholds<T>(w: World<T>, op: Op<T>, k: nat)
    requires k < |w.lockers| && w.lockers[k] != Live(Holding)
    ensures Step(w, op).Some? ==> Step(w, op).value.lockers[k] != Live(Holding)
  {
    if Step(w, op).Some? {
      match op
      case LockOp =>
        assert Step(w, op).value.lockers[k] == w.lockers[k];
      case CopyOp(i) =>
        assert Step(w, op).value.lockers[k] == w.lockers[i := Live(Released)][k];
      case DestroyOp(i) =>
      case AssignOp(_, _) =>
    }
  }

  /** Changing the payload is possible only through a Holding Locker. */
  lemma PayloadOnlyThroughHolder<T>(w: World<T>, op: Op<T>)
    requires Step(w, op).Some? && Step(w, op).value.payload != w.payload
    ensures op.AssignOp? && ReachesPayload(w, op.via)
    ensures Step(w, op).value.payload == op.v
  {
  }

  /**
   The accessors as written serve exactly the Lockers the corrected rule serves,
   plus every copied-from (Released) Locker that has not been destroyed.
   */
  lemma AsWrittenAdmitsReleased<T>(w: World<T>, i: nat)
    ensures ReachesPayloadAsWritten(w, i) <==>
      ReachesPayload(w, i) || (i < |w.lockers| && w.lockers[i] == Live(Released))
  {
    if i < |w.lockers| && w.lockers[i].Live? {
      assert w.lockers[i].owes == Holding || w.lockers[i].owes == Released;
    }
  }

  /** Whoever reaches the payload under the intended rule does so while the protector is locked. */
  lemma ReachesPayloadOnlyWhileLocked<T>(w: World<T>, i: nat)
    requires Valid(w) && ReachesPayload(w, i)
    ensures w.counts.acquires > w.counts.releases
  {
    HolderCounted(w.lockers, i);
  }

  /**
   Under the rule as written, a Locker that was copied from still reaches the
   payload after the copy has been destroyed and the mutex has been unlocked.
   */
  lemma MovedFromLockerReachesPayload<T>(payload: T)
    ensures Run(Init(payload, false), [LockOp, CopyOp(0), DestroyOp(1)]).Some?
    ensures var w := Run(Init(payload, false), [LockOp, CopyOp(0), DestroyOp(1)]).value;
      w.counts.acquires == w.counts.releases &&
      ReachesPayloadAsWritten(w, 0) && !ReachesPayload(w, 0)
  {
    var w0 := Init(payload, false);
    var lk: Op<T>, cp: Op<T>, d1: Op<T> := LockOp, CopyOp(0), DestroyOp(1);
    var w1 := Step(w0, lk).value;
    assert w1.lockers == [Live(Holding)];
    var w2 := Step(w1, cp).value;
    assert w2.lockers == [Live(Released), Live(Holding)];
    var w3 := Step(w2, d1).value;
    assert w3.lockers == [Live(Released), Gone];
    assert Run(w2, [d1]) == Some(w3) by { assert [d1][1..] == []; }
    assert Run(w1, [cp, d1]) == Some(w3) by { assert [cp, d1][1..] == [d1]; }
    assert Run(w0, [lk, cp, d1]) == Some(w3) by { assert [lk, cp, d1][1..] == [cp, d1]; }
  }

  // ---------------------------------------------------------------- many calls

  lemma {:induction false} RunPreservesValid<T>(w: World<T>, ops: seq<Op<T>>)
    requires Valid(w)
    ensures Run(w, ops).Some? ==> Valid(Run(w, ops).value)
    decreases |ops|
  {
    if ops != [] && Step(w, ops[0]).Some? {
      StepPreservesValid(w, ops[0]);
      RunPreservesValid(Step(w, ops[0]).value, ops[1..]);
    }
  }

  /** Over any sequence of calls, a Locker that has stopped Holding never holds again. */
  lemma {:induction false} RunNeverReholds<T>(w: World<T>, ops: seq<Op<T>>, k: nat)
    requires k < |w.lockers| && w.lockers[k] != Live(Holding)
    ensures Run(w, ops).Some? ==> Run(w, ops).value.lockers[k] != Live(Holding)
    decreases |ops|
  {
    if ops != [] && Step(w, ops[0]).Some? {
      StepNeverReholds(w, ops[0], k);
      RunNeverReholds(Step(w, ops[0]).value, ops[1..], k);
    }
  }

  /** A history without assignments leaves the payload as it was. */
  lemma {:induction false} RunWithoutAssignKeepsPayload<T>(w: World<T>, ops: seq<Op<T>>)
    requires forall k :: 0 <= k < |ops| ==> !ops[k].AssignOp?
    requires Run(w, ops).Some?
    ensures Run(w, ops).value.payload == w.payload
    decreases |ops|
  {
    if ops != [] {
      assert !ops[0].AssignOp?;
      assert forall k :: 0 <= k < |ops| - 1 ==> ops[1..][k] == ops[k + 1];
      RunWithoutAssignKeepsPayload(Step(w, ops[0]).value, ops[1..]);
    }
  }

  /** At most one Locker of a plain mutex is Holding at any time. */
  lemma MutualExclusion<T>(w: World<T>, i: nat, j: nat)
    requires Valid(w) && !w.recursive
    requires i < |w.lockers| && j < |w.lockers|
    requires w.lockers[i] == Live(Holding) && w.lockers[j] == Live(Holding)
    ensures i == j
  {
    if i < j {
      TwoHoldersCounted(w.lockers, i, j);
    } else if j < i {
      TwoHoldersCounted(w.lockers, j, i);
    }
  }

  /** Once no Locker is Holding, every `lock` has been matched by exactly one `unlock`. */
  lemma AllReleasedBalanced<T>(w: World<T>)
    requires Valid(w)
    requires forall k :: 0 <= k < |w.lockers| ==> w.lockers[k] != Live(Holding)
    ensures w.counts.acquires == w.counts.releases
  {
    NoHolders(w.lockers);
  }

  /**
   Copying a Holding Locker and destroying both, in either order, issues no extra
   `lock` and exactly one `unlock` in total.
   */
  lemma TransferReleasesOnce<T>(w: World<T>, i: nat)
    requires Valid(w) && i < |w.lockers| && w.lockers[i] == Live(Holding)
    ensures var n := |w.lockers|;
      var once := Counts(w.counts.acquires, w.counts.releases + 1);
      Run(w, [CopyOp(i), DestroyOp(i), DestroyOp(n)]).Some? &&
      Run(w, [CopyOp(i), DestroyOp(i), DestroyOp(n)]).value.counts == once &&
      Run(w, [CopyOp(i), DestroyOp(n), DestroyOp(i)]).Some? &&
      Run(w, [CopyOp(i), DestroyOp(n), DestroyOp(i)]).value.counts == once
  {
    var n := |w.lockers|;
    var ci: Op<T>, di: Op<T>, dn: Op<T> := CopyOp(i), DestroyOp(i), DestroyOp(n);
    var w1 := Step(w, ci).value;
    assert w1.lockers[i] == Live(Released) && w1.lockers[n] == Live(Holding);
    // source first, then the copy
    var a2 := Step(w1, di).value;
    var a3 := Step(a2, dn).value;
    assert Run(a2, [dn]) == Some(a3) by { assert [dn][1..] == []; }
    assert Run(w1, [di, dn]) == Some(a3) by { assert [di, dn][1..] == [dn]; }
    assert Run(w, [ci, di, dn]) == Some(a3) by { assert [ci, di, dn][1..] == [di, dn]; }
    // the copy first, then the source
    var b2 := Step(w1, dn).value;
    var b3 := Step(b2, di).value;
    assert Run(b2, [di]) == Some(b3) by { assert [di][1..] == []; }
    assert Run(w1, [dn, di]) == Some(b3) by { assert [dn, di][1..] == [di]; }
    assert Run(w, [ci, dn, di]) == Some(b3) by { assert [ci, dn, di][1..] == [dn, di]; }
  }

  /**
   n rounds of Lock() and destruction on a protector nobody holds: `lock` and
   `unlock` are each called exactly n more times, and the payload is untouched.
   */
  lemma {:induction false} CyclesBalance<T>(w: World<T>, n: nat)
    requires Valid(w) && (w.recursive || Holders(w.lockers) == 0)
    ensures Run(w, Cycles(n, |w.lockers|)).Some?
    ensures var w' := Run(w, Cycles(n, |w.lockers|)).value;
      w'.counts == Counts(w.counts.acquires + n, w.counts.releases + n) &&
      w'.payload == w.payload && |w'.lockers| == |w.lockers| + n &&
      Holders(w'.lockers) == Holders(w.lockers)
    decreases n
  {
    if n > 0 {
      var k := |w.lockers|;
      var ops := Cycles<T>(n, k);
      LockAcquiresOnce(w);
      var w1 := Step(w, LockOp).value;
      StepPreservesValid(w, LockOp);
      DestroyReleasesIffHolding(w1, k);
      var w2 := Step(w1, DestroyOp(k)).value;
      StepPreservesValid(w1, DestroyOp(k));
      assert ops[0] == LockOp && ops[1..][0] == DestroyOp(k);
      assert ops[1..][1..] == Cycles(n - 1, k + 1);
      assert Run(w1, ops[1..]) == Run(w2, Cycles(n - 1, k + 1));
      CyclesBalance(w2, n - 1);
    }
  }

  /** From a freshly constructed `Protected`, N rounds leave both counts at N. */
  lemma CyclesFromScratch<T>(payload: T, recursive: bool, n: nat)
    ensures Run(Init(payload, recursive), Cycles(n, 0)).Some?
    ensures var w := Run(Init(payload, recursive), Cycles(n, 0)).value;
      w.counts.acquires == n && w.counts.releases == n && w.payload == payload
  {
    CyclesBalance(Init(payload, recursive), n);
  }
}
