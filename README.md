# Protected: a lock-enforced value wrapper, modelled in Dafny

`Protected<T, Protector>` (in `Protected.h`) owns a payload of type `T` and a
lockable `Protector` (a `std::mutex`, a `std::recursive_mutex` or a Win32
critical section). The payload is reachable only through a `Locker`, which
`Protected::Lock()` returns. Constructing the Locker calls `lock()`. Its
destructor calls `unlock()` if its protector pointer is still non-null. Its
copy constructor copies both pointers and nulls the source's protector pointer,
so the duty to call `unlock` moves to the copy and is never duplicated. Through
the Locker's `->`, `*` and `T&` the caller sees the payload storage itself, and
the view's `operator=` replaces the payload in place.

The project has two modules:

- `Locking` (`locking.dfy`) describes a whole sequential history of one wrapper
  as values. A `World` holds the payload, the protector's `lock`/`unlock`
  counts, whether the mutex is recursive, and every Locker made so far. Each
  Locker is `Live(Holding)`, `Live(Released)`, or `Gone` once destroyed. `Step`
  is one call (`Lock()`, copy, destroy, assignment through a Locker); `Run` is
  a sequence of calls. The lemmas state the balance invariant, exactly-once
  release, hand-over on copy, mutual exclusion for a plain mutex, the N-cycles
  count, and that only a Holding Locker changes the payload.
- `Protection` (`protection.dfy`) models the objects as classes: `Protector`
  (ghost counts and a ghost set of the Lockers that still owe an `unlock`),
  `Protected<T>` (the payload field `value` and its own protector) and
  `Locker<T>` (a constant `prot` and a nullable `protector`, mutated as in the
  C++). Each method's contract gives the new counts, the new holder set and the
  new payload. `Protector.Valid()` is the balance: acquires = releases + number
  of holders.

The two modules are independent descriptions of the same discipline. No
function maps a set of `Locker` objects to a `World`, so the history lemmas
of `Locking` are not derived from the class contracts of `Protection`. Each
module's claims are proved about its own definitions.

The protector's counts and holders are ghost. The real mutex has neither; they
record which calls were made. Lock and unlock are the only things the model
takes from the protector.

## Model

| member | source | states |
|---|---|---|
| `Locking.Init` | Protected.h:93-101 | A newly constructed wrapper holds the given payload, has no Lockers and zero counts, and is balanced. |
| `Locking.Step` | Protected.h:17-106 | One call: `Lock()`, the copy constructor, the destructor, or assignment through the view. A call keeps the kind of mutex, never removes a Locker and adds at most one. An assignment goes through exactly when the Locker is Holding; this is the corrected access rule, not the C++ one (see Findings). |
| `Locking.Run` | Protected.h:41-106 | A sequence of calls keeps the kind of mutex and adds at most one Locker per call. |
| `Locking.AsWrittenAdmitsReleased` | Protected.h:67-81 | The accessors as written (`ReachesPayloadAsWritten`: the Locker exists and is not destroyed) serve exactly the Lockers the corrected rule (`ReachesPayload`: Holding only) serves, plus the copied-from, Released ones. |
| `Locking.LockAcquiresOnce` | Protected.h:103-106 | `Lock()` on a protector that can be taken calls `lock` exactly once. The new Locker comes after all earlier ones and is Holding. The earlier Lockers, the payload and the kind of mutex are unchanged. |
| `Locking.LockWhileHeldDeadlocks` | Protected.h:115-116 | On a plain mutex already held by some Locker, `Lock()` is refused (`None`). Re-locking a `std::mutex` by its owner is undefined behaviour. |
| `Locking.DestroyReleasesIffHolding` | Protected.h:47-53 | The destructor never calls `lock`. It calls `unlock` once if the Locker was Holding and nothing if it was Released. The Locker becomes Gone; the other Lockers, their number, the payload and the kind of mutex are unchanged. |
| `Locking.CopyTransfers` | Protected.h:57-62 | The copy owes what the source owed and the source becomes Released. No `lock` or `unlock` is issued; the number of Holding Lockers is unchanged. The other Lockers, the payload and the kind of mutex are unchanged. |
| `Locking.StepNeverReholds` | Protected.h:41-62 | No call makes a Released or destroyed Locker Holding again. |
| `Locking.RunNeverReholds` | Protected.h:41-62 | The same holds over any sequence of calls: the obligation never returns to a Locker that gave it up. |
| `Locking.TransferReleasesOnce` | Protected.h:47-62 | Copying a Holding Locker and then destroying both, in either order, gives no extra `lock` and exactly one `unlock`. |
| `Locking.StepPreservesValid` | Protected.h:41-62 | Each call keeps acquires = releases + number of Holding Lockers. On a plain mutex, it keeps at most one Holding Locker. |
| `Locking.RunPreservesValid` | Protected.h:41-62 | The same balance holds after any sequence of calls. |
| `Locking.MutualExclusion` | Protected.h:115-116 | On a plain mutex, two Holding Lockers are the same Locker. |
| `Locking.AllReleasedBalanced` | Protected.h:47-62 | Once no Locker is Holding, every `lock` has been matched by exactly one `unlock`. |
| `Locking.CyclesBalance` | Protected.h:41-53 | N rounds of `Lock()` then destruction add exactly N to both counts. The payload is untouched and the number of holders is unchanged. |
| `Locking.CyclesFromScratch` | Protected.h:103-106 | Starting from a new wrapper, N rounds leave both counts equal to N. |
| `Locking.PayloadOnlyThroughHolder` | Protected.h:108-112 | A call that changes the payload is an assignment through a Holding Locker, and the payload becomes the assigned value. |
| `Locking.RunWithoutAssignKeepsPayload` | Protected.h:108-112 | A history with no assignment through a Locker leaves the payload unchanged. |
| `Locking.ReachesPayloadOnlyWhileLocked` | Protected.h:67-81 | A Locker allowed to reach the payload under the intended rule does so while the protector is locked (acquires > releases). |
| `Locking.MovedFromLockerReachesPayload` | Protected.h:57-62 | Under the accessors as written, a copied-from Locker still reaches the payload after the copy is destroyed and the mutex is unlocked. |
| `Protection.Protector.Lock` | Protected.h:44 | `lock()` adds 1 to acquires and adds the caller to the holders, keeping the balance. A plain mutex may be taken only when nobody holds it. |
| `Protection.Protector.Unlock` | Protected.h:51 | `unlock()` by a holder adds 1 to releases and removes it from the holders, keeping the balance. |
| `Protection.Protector.HandOver` | Protected.h:61 | The obligation moves from one Locker to another with the counts unchanged. |
| `Protection.Protector.constructor` | Protected.h:8 | The default-constructed protector has zero counts and no holders, and is balanced. |
| `Protection.Protected.constructor` | Protected.h:93-101 | The payload is the given initial value. The protector is fresh, with zero counts and no holders. |
| `Protection.Protected.Lock` | Protected.h:103-106 | Returns a fresh Locker bound to this wrapper and to its own protector. The Locker is Holding; acquires rises by one and the Locker joins the holders. |
| `Protection.Locker.constructor` | Protected.h:41-45 | Binds both pointers and calls `lock` exactly once. The new Locker is Holding. |
| `Protection.Locker.Transfer` | Protected.h:57-62 | The copy has the source's two pointers and the source's protector pointer becomes null. The counts are unchanged, and the holder set swaps source for copy when the source was Holding. |
| `Protection.Locker.Destroy` | Protected.h:47-53 | `unlock` is called once if the Locker was Holding, otherwise nothing happens. The Locker leaves the holders. |
| `Protection.Locker.Arrow` | Protected.h:67-71 | `operator->` returns the wrapper's own storage: the same object, not a copy. |
| `Protection.Locker.Deref` | Protected.h:73-76 | `operator*` returns the same storage as `operator->`. |
| `Protection.Locker.AsRef` | Protected.h:78-81 | The conversion to `T&` returns the same storage too. |
| `Protection.Locker.Assign` | Protected.h:17-31 | Assigning through the view replaces the payload with the value and returns the same view. The protector and the Locker's state are unchanged. |
| `Protection.Locker.Apply` | Protected.h:67-71 | A payload operation called through `->` updates the payload in place. The protector and the Locker's state are unchanged. |
| `Protection.AppendScenario` | Protected.h:103-106 | Two critical sections on a wrapped `{1, 2, 3}` each append one element, giving `{1, 2, 3, 4, 5}`. A write through one accessor is seen through the others; both counts rise by two and no holder remains. |
| `Protection.TransferScenario` | Protected.h:57-62 | With a Locker passed on by copy, the copy holds the lock and the source does not. Destroying both issues one `lock` and one `unlock` in all, and the copy reads the payload. |

## Left out

- Threads, blocking and mutual exclusion between threads: the model is one sequential caller. Taking a plain mutex that is already held is a precondition of `Protection.Protector.Lock`, `Protection.Protected.Lock` and `Protection.Locker.constructor`, and is `None` in `Locking.Step`. For `std::mutex` that case is undefined behaviour (it may deadlock or throw `std::system_error`); the model only refuses it. Nested acquisition of a recursive mutex is allowed without owner tracking.
- The standard-library mutexes behind `ProtectedByMutex` and `ProtectedByRecursiveMutex` (Protected.h:115-119) are reduced to the `recursive` flag and the counters.
- `ProtectorCriticalSection` (Protected.h:122-150): foreign Win32 calls. It behaves like a recursive mutex, so it is covered by `recursive == true`.
- The layout cast from `Protected*` to `ProtectedPublic<T>*` and the duplicated `protector_` field that exists only for layout (Protected.h:12-14, 70, 75). The view is the `Protected` object itself.
- The `static_assert` against a `Protected` constructor argument and the variadic perfect forwarding (Protected.h:85-96) are compile-time only. Construction takes the payload's initial value.
- Protection.Locker.Assign: the C++ `operator=` templates take any `Arg` or an initializer list and leave the conversion to `T`'s own `operator=`. The model takes the already converted `T` value.
- Locking.Step: refuses an assignment through a copied-from (Released) Locker, which the C++ performs because its accessors check nothing (see Findings).
- Protection.Locker.Arrow, Protection.Locker.Deref, Protection.Locker.AsRef, Protection.Locker.Assign, Protection.Locker.Apply require a Locker that still holds the lock. The C++ operators check nothing: see Findings.
- Protection.Locker.constructor requires the protector to be the wrapper's own. In the C++ this constructor is public, but its comment (Protected.h:55) says only `Protected::Lock()` creates Lockers.
- Deleted operations (`Locker::operator=`, both `Protected::operator=`, Protected.h:65, 108-112): these exist in the model only as the absence of any such method. No method outside `Locker` assigns the payload; Dafny has no access control to enforce this.
- Failure of `lock`/`unlock` in the platform primitive: the wrapper adds nothing to it and the model has no error path for it.

## Findings

| source | as written | input that shows it | evidently intended | confidence | as-written member | corrected member |
|---|---|---|---|---|---|---|
| Protected.h:57-81 | The copy constructor nulls only `rhs.pProtector_`, and `operator->`, `operator*` and `operator T&` return `pProtected_` without checks. A copied-from Locker therefore keeps handing out the payload. | `auto a = p.Lock(); { auto b = a; } a->f();` After `b` is destroyed the mutex is unlocked, yet `a` still reaches the payload. | Only a Locker that still owes the `unlock` should reach the payload. | medium, not executed | `Locking.MovedFromLockerReachesPayload` | `Locking.ReachesPayloadOnlyWhileLocked` |

The rest of the model uses the corrected rule: `Locking.ReachesPayload` in
`Step`, and `HoldsLock()` in the requires clauses of the `Locker` accessors.
