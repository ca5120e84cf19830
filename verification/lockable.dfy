/** `BasicLockable<T>` (Lockable.hpp): a lock that, in a debug build, also records
    which thread holds it, so that code can check that it runs under the lock.

    The underlying lock `lock_` is modelled by the thread that holds it. Blocking
    is not modelled: `lock()` is only called when no thread holds the lock, and
    `unlock()` only by the thread that holds it, as a `BasicLockable` requires. The
    calling thread's `std::this_thread::get_id()` is a parameter. */
module Lockables {
  import opened Exceptions

  /** Whether `NDEBUG` is defined: a release build has no `owner_` member. */
  datatype Build = Debug | Release

  /** A `std::thread::id`: either the default-constructed id that names no thread
      (the static member `none_`) or the id of a running thread. */
  datatype ThreadId = NoThread | Thread(id: nat)

  /** The lockable object: its build, the recorded `owner_` (always `NoThread` in a
      release build, which lacks the member), and the holder of `lock_`. */
  datatype Lockable = Lockable(build: Build, owner: ThreadId, holder: ThreadId)

  /** The recorded owner is the holder of the lock in a debug build. */
  ghost predicate Valid(l: Lockable) {
    if l.build == Debug then l.owner == l.holder else l.owner == NoThread
  }

  /** A new lockable: `owner_{none_}` and `lock_{}`, both unowned. */
  function Fresh(build: Build): (l: Lockable)
    ensures Valid(l) && l.holder == NoThread
  {
    Lockable(build, NoThread, NoThread)
  }

  /** `lock()` by thread `t`: acquires `lock_`, then records `t` as the owner. */
  function Lock(l: Lockable, t: nat): (r: Lockable)
    requires l.holder == NoThread
    ensures r.build == l.build && r.holder == Thread(t)
  {
    var acquired := l.(holder := Thread(t));
    if l.build == Debug then acquired.(owner := Thread(t)) else acquired
  }

  /** `unlock()` by thread `t`: forgets the owner, then releases `lock_`. */
  function Unlock(l: Lockable, t: nat): (r: Lockable)
    requires l.holder == Thread(t)
    ensures r.build == l.build && r.holder == NoThread
  {
    var forgotten := if l.build == Debug then l.(owner := NoThread) else l;
    forgotten.(holder := NoThread)
  }

  /** `this_thread_is_owner()` from thread `t`. */
  function ThisThreadIsOwner(l: Lockable, t: nat): bool {
    match l.build
    case Release => true
    case Debug => Thread(t) == l.owner
  }

  /** `assert_ownership()` from thread `t`: aborts in a debug build when `t` is not
      the recorded owner. */
  function AssertOwnership(l: Lockable, t: nat): (r: Result<()>)
    ensures l.build == Release ==> r.Ok?
  {
    if l.build == Debug && l.owner != Thread(t) then Throw(AssertionFailure) else Ok(())
  }

  // ---------------------------------------------------------------------------
  // Properties

  /** `lock()` and `unlock()` keep the recorded owner in step with the lock. */
  lemma LockUnlockPreserveValid(l: Lockable, t: nat)
    requires Valid(l)
    ensures l.holder == NoThread ==> Valid(Lock(l, t))
    ensures l.holder == Thread(t) ==> Valid(Unlock(l, t))
  {
  }

  /** `assert_ownership()` passes exactly when `this_thread_is_owner()` holds. */
  lemma AssertOwnershipAgrees(l: Lockable, t: nat)
    ensures AssertOwnership(l, t).Ok? <==> ThisThreadIsOwner(l, t)
    ensures AssertOwnership(l, t).Throw? ==> AssertOwnership(l, t).error == AssertionFailure
  {
  }

  /** In a debug build, a thread is the owner exactly when it holds the lock; in a
      release build every thread counts as the owner. */
  lemma OwnerIsHolder(l: Lockable, t: nat)
    requires Valid(l)
    ensures ThisThreadIsOwner(l, t) <==> l.build == Release || l.holder == Thread(t)
  {
  }

  /** After `t` locks, `t` is the owner, and in a debug build no other thread is. */
  lemma LockMakesOwner(l: Lockable, t: nat, u: nat)
    requires Valid(l) && l.holder == NoThread
    ensures ThisThreadIsOwner(Lock(l, t), t)
    ensures l.build == Debug ==> (ThisThreadIsOwner(Lock(l, t), u) <==> u == t)
  {
  }

  /** After `unlock()`, in a debug build no thread is the owner, and the lockable
      is as new. */
  lemma UnlockLeavesNoOwner(l: Lockable, t: nat, u: nat)
    requires Valid(l) && l.holder == Thread(t)
    ensures l.build == Debug ==> !ThisThreadIsOwner(Unlock(l, t), u)
    ensures Unlock(l, t) == Fresh(l.build)
  {
  }

  /** A lock guard: `lock()` then `unlock()` by the same thread restores the
      lockable, and `assert_ownership()` passes in between. */
  lemma LockGuardTest(build: Build, t: nat)
    ensures AssertOwnership(Lock(Fresh(build), t), t) == Ok(())
    ensures Unlock(Lock(Fresh(build), t), t) == Fresh(build)
  {
  }

  /** On a lockable nobody has locked, `assert_ownership()` aborts in a debug build
      and passes in a release build, and so does `this_thread_is_owner()`. */
  lemma UnownedTest(t: nat)
    ensures AssertOwnership(Fresh(Debug), t) == Throw(AssertionFailure)
    ensures !ThisThreadIsOwner(Fresh(Debug), t)
    ensures AssertOwnership(Fresh(Release), t) == Ok(())
    ensures ThisThreadIsOwner(Fresh(Release), t)
  {
  }
}
