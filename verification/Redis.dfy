/** Redis as the requests use it: one atomic command at a time, each of which may fail. */
module RedisClient {
  import opened Prelude
  import opened Ledger
  import Idempotency
  import BalanceCache

  /**
   * A command that raises was never sent, was carried out without its reply arriving, or was denied by the
   * server. The first two are connection errors or timeouts; the last one is not.
   */
  datatype Fault = Works | NotSent | ReplyLost | Denied

  datatype RedisError = ConnectionFailed | ServerError

  predicate IsCarriedOut(fault: Fault) {
    fault.Works? || fault.ReplyLost?
  }

  type Reply<+T> = Result<T, RedisError>

  /** A cached balance and when it expires. */
  datatype Cell = Cell(answer: BalanceCache.Answer, expires: Instant)

  type Balances = map<BalanceCache.Key, Cell>

  /** The balances left when an account's keys are gone. */
  function Purge(balances: Balances, accounts: set<Uuid>): Balances {
    map k | k in balances && k.account !in accounts :: balances[k]
  }

  function Answer<T>(fault: Fault, value: T): Reply<T> {
    match fault
    case Works => Ok(value)
    case Denied => Err(ServerError)
    case _ => Err(ConnectionFailed)
  }

  /** Idempotency keys and balance keys have different prefixes, so they are two maps. */
  class Redis {
    const faults: nat -> Fault
    var commands: nat
    var keys: map<Idempotency.Key, Idempotency.Stored>
    var balances: Balances

    constructor (faults: nat -> Fault)
      ensures this.faults == faults && commands == 0 && keys == map[] && balances == map[]
    {
      this.faults := faults;
      commands, keys, balances := 0, map[], map[];
    }

    ghost predicate Reliable() {
      forall i: nat :: faults(i).Works?
    }

    /** Every failure is one of the connection. */
    ghost predicate NeverDenies() {
      forall i: nat :: !faults(i).Denied?
    }

    /** SET key value NX: whether it was set. */
    method SetNx(k: Idempotency.Key, v: Idempotency.Stored) returns (r: Reply<bool>)
      modifies this`keys, this`commands
      ensures keys == if !IsCarriedOut(old(faults(commands))) || k in old(keys) then old(keys) else old(keys)[k := v]
      ensures r == Answer(old(faults(commands)), k !in old(keys))
    {
      var fault, free := faults(commands), k !in keys;
      if IsCarriedOut(fault) && free {
        keys := keys[k := v];
      }
      commands := commands + 1;
      r := Answer(fault, free);
    }

    method Get(k: Idempotency.Key) returns (r: Reply<Option<Idempotency.Stored>>)
      modifies this`commands
      ensures r == Answer(old(faults(commands)), Idempotency.Lookup(keys, k))
    {
      r := Answer(faults(commands), Idempotency.Lookup(keys, k));
      commands := commands + 1;
    }

    method Put(k: Idempotency.Key, v: Idempotency.Stored) returns (r: Reply<()>)
      modifies this`keys, this`commands
      ensures keys == if !IsCarriedOut(old(faults(commands))) then old(keys) else old(keys)[k := v]
      ensures r == Answer(old(faults(commands)), ())
    {
      var fault := faults(commands);
      if IsCarriedOut(fault) {
        keys := keys[k := v];
      }
      commands := commands + 1;
      r := Answer(fault, ());
    }

    method Delete(k: Idempotency.Key) returns (r: Reply<()>)
      modifies this`keys, this`commands
      ensures keys == if !IsCarriedOut(old(faults(commands))) then old(keys) else old(keys) - {k}
      ensures r == Answer(old(faults(commands)), ())
    {
      var fault := faults(commands);
      if IsCarriedOut(fault) {
        keys := keys - {k};
      }
      commands := commands + 1;
      r := Answer(fault, ());
    }

    method GetBalance(k: BalanceCache.Key, now: Instant) returns (r: Reply<Option<BalanceCache.Answer>>)
      modifies this`commands
      ensures r == Answer(old(faults(commands)),
                          if k in balances && now < balances[k].expires then Some(balances[k].answer) else None)
    {
      var live := k in balances && now < balances[k].expires;
      r := Answer(faults(commands), if live then Some(balances[k].answer) else None);
      commands := commands + 1;
    }

    method SetBalance(k: BalanceCache.Key, cell: Cell) returns (r: Reply<()>)
      modifies this`balances, this`commands
      ensures balances == if !IsCarriedOut(old(faults(commands))) then old(balances) else old(balances)[k := cell]
      ensures r == Answer(old(faults(commands)), ())
    {
      var fault := faults(commands);
      if IsCarriedOut(fault) {
        balances := balances[k := cell];
      }
      commands := commands + 1;
      r := Answer(fault, ());
    }

    /** SCAN with an account's pattern, in whatever order. */
    method Scan(account: Uuid) returns (r: Reply<seq<BalanceCache.Key>>)
      modifies this`commands
      ensures r.Ok? <==> old(faults(commands)).Works?
      ensures r == Err(ServerError) <==> old(faults(commands)).Denied?
      ensures r.Ok? ==> forall k :: k in r.value <==> k in balances && k.account == account
    {
      var fault := faults(commands);
      var rest := set k | k in balances && k.account == account;
      var found: seq<BalanceCache.Key> := [];
      while rest != {}
        invariant forall k :: (k in rest || k in found) <==> (k in balances && k.account == account)
        decreases |rest|
      {
        var k :| k in rest;
        found, rest := found + [k], rest - {k};
      }
      commands := commands + 1;
      r := Answer(fault, found);
    }

    method DeleteBalances(ks: seq<BalanceCache.Key>) returns (r: Reply<()>)
      modifies this`balances, this`commands
      ensures balances == if !IsCarriedOut(old(faults(commands))) then old(balances)
                          else old(balances) - (set k | k in ks)
      ensures r == Answer(old(faults(commands)), ())
    {
      var fault := faults(commands);
      if IsCarriedOut(fault) {
        balances := balances - (set k | k in ks);
      }
      commands := commands + 1;
      r := Answer(fault, ());
    }
  }
}
