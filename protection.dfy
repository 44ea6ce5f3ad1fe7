/**
 The objects of `Protected.h`: the protector, the `Protected` wrapper that owns
 the payload and the protector, and the `Locker` it hands out.

 The protector is only bookkeeping here: ghost counts of its `lock` and
 `unlock` calls and the ghost set of Lockers that still owe an `unlock`. Its
 invariant is the balance: every `lock` not yet undone is owed by exactly one
 member of that set. The payload is the field `value` of `Protected`; the
 accessors of a Locker return the `Protected` object itself, so every view
 they give is the same storage. Nothing in this module assigns `value` except
 the Locker methods, and those require a Locker that holds the lock.
 */
module Protection {
  import opened Locking

  /** A lockable resource (`std::mutex` or `std::recursive_mutex`), as counters. */
  class Protector {
    const recursive: bool
    ghost var counts: Counts
    ghost var holders: set<object>

    ghost predicate Valid()
      reads this
    {
      Balanced(counts, |holders|) &&
      (!recursive ==> counts.acquires <= counts.releases + 1)
    }

    constructor (recursive: bool)
      ensures this.recursive == recursive && Valid()
      ensures counts == Counts(0, 0) && holders == {}
    {
      this.recursive := recursive;
      counts := Counts(0, 0);
      holders := {};
    }

    /** `lock()`, for a new holder; a plain mutex that is already held would deadlock. */
    method Lock(ghost holder: object)
      requires Valid() && holder !in holders
      requires recursive || holders == {}
      modifies this
      ensures Valid()
      ensures counts == Counts(old(counts.acquires) + 1, old(counts.releases))
      ensures holders == old(holders) + {holder}
    {
      counts := Counts(counts.acquires + 1, counts.releases);
      holders := holders + {holder};
    }

    /** `unlock()`, by one of the holders. */
    method Unlock(ghost holder: object)
      requires Valid() && holder in holders
      modifies this
      ensures Valid()
      ensures counts == Counts(old(counts.acquires), old(counts.releases) + 1)
      ensures holders == old(holders) - {holder}
    {
      counts := Counts(counts.acquires, counts.releases + 1);
      holders := holders - {holder};
    }

    /** The obligation moves from one Locker to another; the mutex itself is not called. */
    ghost method HandOver(from: object, to: object)
      requires Valid() && from in holders && to !in holders
      modifies this
      ensures Valid() && counts == old(counts)
      ensures holders == old(holders) - {from} + {to}
    {
      assert |holders - {from}| == |holders| - 1;
      holders := holders - {from} + {to};
    }
  }

  /** The wrapper: a payload and its own protector, co-owned. */
  class Protected<T> {
    var value: T
    const protector: Protector

    ghost predicate Valid()
      reads protector
    {
      protector.Valid()
    }

    /** Construction from the payload's initial value; the protector is default-constructed. */
    constructor (init: T, recursive: bool)
      ensures value == init && fresh(protector) && protector.recursive == recursive
      ensures protector.counts == Counts(0, 0) && protector.holders == {}
      ensures Valid()
    {
      value := init;
      protector := new Protector(recursive);
    }

    /** `Lock()`: a Locker bound to this object and its own protector, which it acquires. */
    method Lock() returns (l: Locker<T>)
      requires Valid()
      requires protector.recursive || protector.holders == {}
      modifies protector
      ensures fresh(l) && l.prot == this && l.protector == protector
      ensures Valid() && l.Valid() && l.alive && l.State() == Holding
      ensures protector.counts == Counts(old(protector.counts.acquires) + 1, old(protector.counts.releases))
      ensures protector.holders == old(protector.holders) + {l}
    {
      l := new Locker(this, protector);
    }
  }

  /** The access token. `protector` is non-null exactly while it is Holding. */
  class Locker<T> {
    const prot: Protected<T>
    var protector: Protector?
    ghost var alive: bool  // the destructor has not run yet

    /** The Locker points at its wrapper's own protector and is listed there exactly while it holds. */
    ghost predicate Valid()
      reads this, prot.protector
    {
      (protector == null || protector == prot.protector) &&
      (this in prot.protector.holders <==> alive && protector != null)
    }

    function State(): Obligation
      reads this
    {
      if protector == null then Released else Holding
    }

    ghost predicate HoldsLock()
      reads this
    {
      alive && protector != null
    }

    /** Only `Protected::Lock()` calls this: it binds both pointers and calls `lock()`. */
    constructor (pProtected: Protected<T>, pProtector: Protector)
      requires pProtector == pProtected.protector && pProtector.Valid()
      requires pProtector.recursive || pProtector.holders == {}
      modifies pProtector
      ensures prot == pProtected && protector == pProtector && alive
      ensures pProtector.Valid() && Valid() && State() == Holding
      ensures pProtector.counts == Counts(old(pProtector.counts.acquires) + 1, old(pProtector.counts.releases))
      ensures pProtector.holders == old(pProtector.holders) + {this}
    {
      prot := pProtected;
      protector := pProtector;
      alive := true;
      new;
      protector.Lock(this);
    }

    /**
     The copy constructor: both pointers are copied and the source's protector
     pointer is nulled, so the obligation moves and is never duplicated.
     */
    constructor Transfer(rhs: Locker<T>)
      requires rhs.prot.Valid() && rhs.Valid() && rhs.alive
      modifies rhs, rhs.prot.protector
      ensures prot == rhs.prot && protector == old(rhs.protector) && alive
      ensures rhs.protector == null && rhs.alive && rhs.State() == Released
      ensures prot.Valid() && Valid() && rhs.Valid()
      ensures rhs.prot.protector.counts == old(rhs.prot.protector.counts)
      ensures rhs.prot.protector.holders ==
        if old(rhs.protector) == null then old(rhs.prot.protector.holders)
        else old(rhs.prot.protector.holders) - {rhs} + {this}
    {
      prot := rhs.prot;
      protector := rhs.protector;
      alive := true;
      new;
      if rhs.protector != null {
        prot.protector.HandOver(rhs, this);
      }
      rhs.protector := null;
    }

    /** The destructor: `unlock()` exactly when the Locker is still Holding. */
    method Destroy()
      requires prot.Valid() && Valid() && alive
      modifies this, prot.protector
      ensures !alive && protector == old(protector) && prot.Valid() && Valid()
      ensures prot.protector.counts ==
        if old(State()) == Holding
        then Counts(old(prot.protector.counts.acquires), old(prot.protector.counts.releases) + 1)
        else old(prot.protector.counts)
      ensures prot.protector.holders == old(prot.protector.holders) - {this}
    {
      if protector != null {
        protector.Unlock(this);
      }
      alive := false;
    }

    /** `operator->`: the view of the payload, which is the wrapped storage itself. */
    method Arrow() returns (view: Protected<T>)
      requires Valid() && HoldsLock()
      ensures view == prot
    {
      view := prot;
    }

    /** `operator*`: the same storage as `Arrow`, by reference. */
    method Deref() returns (view: Protected<T>)
      requires Valid() && HoldsLock()
      ensures view == prot
    {
      view := prot;
    }

    /** `operator T&`: the payload itself, not a copy. */
    method AsRef() returns (view: Protected<T>)
      requires Valid() && HoldsLock()
      ensures view == prot
    {
      view := prot;
    }

    /** `*locker = v` (either overload of the view's assignment): the payload becomes v. */
    method Assign(v: T) returns (view: Protected<T>)
      requires Valid() && HoldsLock()
      modifies prot
      ensures view == prot && prot.value == v
      ensures protector == old(protector) && Valid() && HoldsLock()
      ensures unchanged(prot.protector)
    {
      prot.value := v;
      view := prot;
    }

    /** `locker->op(...)`: one of the payload's own mutating operations, called through the view. */
    method Apply(op: T -> T)
      requires Valid() && HoldsLock()
      modifies prot
      ensures prot.value == op(old(prot.value))
      ensures protector == old(protector) && Valid() && HoldsLock()
      ensures unchanged(prot.protector)
    {
      prot.value := op(prot.value);
    }
  }

  /**
   A sequential client of a wrapped sequence {1, 2, 3}: two critical sections
   that each append one element. A write through one accessor is seen through a
   view obtained earlier from another, and afterwards every `lock` has been
   matched by exactly one `unlock`.
   */
  method AppendScenario(p: Protected<seq<int>>) returns (contents: seq<int>)
    requires p.Valid() && p.protector.holders == {} && p.value == [1, 2, 3]
    modifies p, p.protector
    ensures contents == [1, 2, 3, 4, 5] && p.value == contents
    ensures p.protector.counts ==
      Counts(old(p.protector.counts.acquires) + 2, old(p.protector.counts.releases) + 2)
    ensures p.protector.holders == {}
  {
    var first := p.Lock();
    var view := first.Arrow();
    first.Apply(s => s + [4]);
    assert view.value == [1, 2, 3, 4];
    first.Destroy();

    var second := p.Lock();
    var whole := second.AsRef();
    var _ := second.Assign(whole.value + [5]);
    var deref := second.Deref();
    contents := deref.value;
    assert view.value == contents;
    second.Destroy();
  }

  /**
   A Locker passed on by copy: the copy holds the lock, the source no longer
   does, destroying the source calls nothing, and destroying both calls
   `unlock` once in all.
   */
  method TransferScenario(p: Protected<int>) returns (seen: int)
    requires p.Valid() && p.protector.holders == {}
    modifies p.protector
    ensures seen == p.value
    ensures p.protector.counts ==
      Counts(old(p.protector.counts.acquires) + 1, old(p.protector.counts.releases) + 1)
    ensures p.protector.holders == {}
  {
    var source := p.Lock();
    var target := new Locker.Transfer(source);
    assert target.HoldsLock() && !source.HoldsLock();
    assert p.protector.counts ==
      Counts(old(p.protector.counts.acquires) + 1, old(p.protector.counts.releases));
    source.Destroy();
    assert p.protector.counts ==
      Counts(old(p.protector.counts.acquires) + 1, old(p.protector.counts.releases));
    var view := target.Deref();
    seen := view.value;
    target.Destroy();
  }
}
