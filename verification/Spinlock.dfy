// The spinlock of kernel/src/arch/amd64/spinlock.asm, one instruction at a time.
module Spinlock {
  import opened Words

  // spinlock_acquire: test; lock bts; pause and start over; or return.
  datatype Spin = Test | Bts | Pause | Acquired

  function Locked(lock: Word): bool {
    lock % 2 == 1
  }

  function SpinLock(lock: Word, pc: Spin): (r: Word)
  {
    if pc == Bts && !Locked(lock) then lock + 1 else lock
  }

  function SpinPc(lock: Word, pc: Spin): Spin {
    match pc
    case Test => if Locked(lock) then Pause else Bts
    case Bts => if Locked(lock) then Pause else Acquired
    case Pause => Test
    case Acquired => Acquired
  }

  // n instructions of one CPU that has the lock word to itself.
  function SpinFor(lock: Word, pc: Spin, n: nat): (Word, Spin)
    decreases n
  {
    if n == 0 then (lock, pc) else SpinFor(SpinLock(lock, pc), SpinPc(lock, pc), n - 1)
  }

  // A lock that is free is taken in two instructions.
  lemma FreeLockIsTaken(lock: Word)
    ensures SpinFor(lock, Test, 2).1.Acquired? <==> lock % 2 == 0
    ensures SpinFor(lock, Test, 2).0 == lock - lock % 2 + 1
  {
    assert SpinFor(lock, Test, 2) == SpinFor(lock, SpinPc(lock, Test), 1);
    assert SpinFor(lock, SpinPc(lock, Test), 1) ==
           SpinFor(SpinLock(lock, SpinPc(lock, Test)), SpinPc(lock, SpinPc(lock, Test)), 0);
  }

  // A waiting CPU, wherever it is in its loop, takes a lock that is free within
  // three instructions of its own, and leaves the word set.
  lemma WaiterTakesFreeLock(lock: Word, pc: Spin)
    requires lock % 2 == 0
    ensures SpinFor(lock, pc, 3).1.Acquired?
    ensures SpinFor(lock, pc, 3).0 == if pc.Acquired? then lock else lock + 1
  {
    assert SpinFor(lock, pc, 3) == SpinFor(SpinLock(lock, pc), SpinPc(lock, pc), 2);
    var l, q := SpinLock(lock, pc), SpinPc(lock, pc);
    assert SpinFor(l, q, 2) == SpinFor(SpinLock(l, q), SpinPc(l, q), 1);
    assert SpinFor(SpinLock(l, q), SpinPc(l, q), 1) ==
           SpinFor(SpinLock(SpinLock(l, q), SpinPc(l, q)), SpinPc(SpinLock(l, q), SpinPc(l, q)), 0);
  }

  // The lock is not recursive: a CPU that waits for a lock it holds itself, with
  // nobody else to release it, spins for ever. This is where vmm_map ends up
  // when it runs out of page frames.
  lemma {:induction false} SelfDeadlock(lock: Word, pc: Spin, n: nat)
    requires lock % 2 == 1 && !pc.Acquired?
    ensures SpinFor(lock, pc, n).0 == lock && !SpinFor(lock, pc, n).1.Acquired?
    decreases n
  {
    if n > 0 {
      SelfDeadlock(SpinLock(lock, pc), SpinPc(lock, pc), n - 1);
    }
  }
}
