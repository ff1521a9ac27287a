/** sem_pv.c and the account operations as one caller runs them when nobody is in its way. */
module Accounts {
  import opened AccountProtocol

  /** A System V semaphore set with the undo adjustments the kernel keeps per process. */
  class SemSet {
    var values: array<int>
    var adj: map<(int, int), int>

    ghost predicate Valid()
      reads this, values
    {
      forall i :: 0 <= i < values.Length ==> values[i] >= 0
    }

    function Adj(pid: int, num: int): int
      reads this
    {
      if (pid, num) in adj then adj[(pid, num)] else 0
    }

    /** sem_I: every semaphore gets `value`, stored as an unsigned short. */
    constructor (semnums: nat, value: int)
      ensures Valid() && fresh(values) && values.Length == semnums && adj == map[]
      ensures forall i :: 0 <= i < semnums ==> values[i] == value % 0x1_0000
    {
      values := new int[semnums](_ => 0);
      adj := map[];
      new;
      for i := 0 to semnums
        invariant values.Length == semnums && fresh(values) && adj == map[]
        invariant forall k :: 0 <= k < i ==> values[k] == value % 0x1_0000
      {
        values[i] := value % 0x1_0000;
      }
    }

    /** semop proceeds at once; a zero operation waits for a zero semaphore. */
    predicate Ready(num: int, op: int)
      reads this, values
      requires 0 <= num < values.Length
    {
      if op == 0 then values[num] == 0 else values[num] + op >= 0
    }

    /** semop with SEM_UNDO: the adjustment moves against the semaphore. */
    method SemOp(pid: int, num: int, op: int)
      requires Valid() && 0 <= num < values.Length && Ready(num, op)
      modifies this`adj, values
      ensures Valid() && values[num] == old(values[num]) + op
      ensures forall i :: 0 <= i < values.Length && i != num ==> values[i] == old(values[i])
      ensures forall q, i :: Adj(q, i) == old(Adj(q, i)) - if q == pid && i == num then op else 0
    {
      values[num] := values[num] + op;
      adj := adj[(pid, num) := Adj(pid, num) - op];
    }

    method P(pid: int, num: int, value: nat)
      requires Valid() && 0 <= num < values.Length && Ready(num, 0 - value)
      modifies this`adj, values
      ensures Valid() && values[num] == old(values[num]) - value
      ensures forall i :: 0 <= i < values.Length && i != num ==> values[i] == old(values[i])
      ensures forall q, i :: Adj(q, i) == old(Adj(q, i)) + if q == pid && i == num then value else 0
    {
      SemOp(pid, num, 0 - value);
    }

    method V(pid: int, num: int, value: nat)
      requires Valid() && 0 <= num < values.Length && Ready(num, value)
      modifies this`adj, values
      ensures Valid() && values[num] == old(values[num]) + value
      ensures forall i :: 0 <= i < values.Length && i != num ==> values[i] == old(values[i])
      ensures forall q, i :: Adj(q, i) == old(Adj(q, i)) - if q == pid && i == num then value else 0
    {
      SemOp(pid, num, value);
    }
  }

  /** The account in shared memory; semaphore 0 of its set guards the balance. */
  class Account {
    var balance: real
    const sem: SemSet

    constructor (balance: real)
      ensures this.balance == balance && fresh(sem) && fresh(sem.values) && Free()
    {
      this.balance := balance;
      sem := new SemSet(1, 1);
    }

    ghost predicate Free()
      reads this, sem, sem.values
    {
      sem.Valid() && sem.values.Length == 1 && sem.values[0] == 1
    }

    /** A whole operation is its serial effect, and leaves semaphore and adjustments as it found them. */
    method Withdraw(pid: int, amt: real) returns (r: real)
      requires Free()
      modifies this`balance, sem`adj, sem.values
      ensures Free() && (balance, r) == Serial(old(balance), Op.Withdraw(amt))
      ensures r == if 0.0 <= amt <= old(balance) then amt else 0.0
      ensures balance == old(balance) - r
      ensures forall q, i :: sem.Adj(q, i) == old(sem.Adj(q, i))
    {
      sem.P(pid, 0, 1);
      if amt < 0.0 || amt > balance {
        sem.V(pid, 0, 1);
        return 0.0;
      }
      var local := balance;
      local := local - amt;
      balance := local;
      sem.V(pid, 0, 1);
      r := amt;
    }

    method Deposit(pid: int, amt: real) returns (r: real)
      requires Free()
      modifies this`balance, sem`adj, sem.values
      ensures Free() && (balance, r) == Serial(old(balance), Op.Deposit(amt))
      ensures r == if amt >= 0.0 then amt else 0.0
      ensures balance == old(balance) + r
      ensures forall q, i :: sem.Adj(q, i) == old(sem.Adj(q, i))
    {
      sem.P(pid, 0, 1);
      if amt < 0.0 {
        sem.V(pid, 0, 1);
        return 0.0;
      }
      var local := balance;
      local := local + amt;
      balance := local;
      sem.V(pid, 0, 1);
      r := amt;
    }

    method GetBalance(pid: int) returns (r: real)
      requires Free()
      modifies sem`adj, sem.values
      ensures Free() && (balance, r) == Serial(old(balance), Op.GetBalance)
      ensures r == balance == old(balance)
      ensures forall q, i :: sem.Adj(q, i) == old(sem.Adj(q, i))
    {
      sem.P(pid, 0, 1);
      var local := balance;
      sem.V(pid, 0, 1);
      r := local;
    }
  }
}
