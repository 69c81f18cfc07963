/**
The reference-counted lock per key of the idempotency middleware
(internal/httpapi/idempotency.go).

`LockTable` is the table as a value: the entries in the map, and every lock ever
allocated, numbered in order of allocation, so that "the same lock object" is "the
same number".  `KeyLocks` is the table the source keeps, with its map and its lock
objects updated in place, proved to do what the value does.
*/
module LockTables {
  import opened Wrappers

  type Tid = nat

  /** One lock: how many threads counted themselves on it, and who holds its mutex. */
  datatype Lock = Lock(refs: int, holder: Option<Tid>)

  datatype LockTable<Name> = LockTable(held: map<Name, nat>, locks: seq<Lock>) {
    /** Every entry names an allocated lock. */
    predicate WellFormed() {
      forall name :: name in held ==> held[name] < |locks|
    }
  }

  function Empty<Name>(): LockTable<Name> { LockTable(map[], []) }

  /** The first section under the table's mutex: find or add the entry, and count in. */
  function CountIn<Name(==)>(table: LockTable<Name>, name: Name): (r: (LockTable<Name>, nat))
    requires table.WellFormed()
    ensures r.0.WellFormed() && r.1 < |r.0.locks|
  {
    if name in table.held then
      var id := table.held[name];
      (table.(locks := table.locks[id := table.locks[id].(refs := table.locks[id].refs + 1)]), id)
    else
      var id := |table.locks|;
      (LockTable(table.held[name := id], table.locks + [Lock(1, None)]), id)
  }

  /** The last section under the table's mutex: count out, and drop the entry at zero. */
  function CountOut<Name(==)>(table: LockTable<Name>, name: Name, id: nat): (r: LockTable<Name>)
    requires table.WellFormed() && id < |table.locks|
    ensures r.WellFormed()
  {
    var locks := table.locks[id := table.locks[id].(refs := table.locks[id].refs - 1)];
    LockTable(if locks[id].refs == 0 then table.held - {name} else table.held, locks)
  }

  function SetHolder<Name>(table: LockTable<Name>, id: nat, holder: Option<Tid>): (r: LockTable<Name>)
    requires table.WellFormed() && id < |table.locks|
    ensures r.WellFormed()
  {
    table.(locks := table.locks[id := table.locks[id].(holder := holder)])
  }

  class KeyLock {
    var refs: int
    var holder: Option<Tid>
    ghost const id: nat

    constructor (ghost number: nat)
      ensures refs == 0 && holder == None && id == number
    {
      refs, holder := 0, None;
      id := number;
    }
  }

  class KeyLocks {
    var held: map<string, KeyLock>
    /** Every lock ever allocated, and what the map and the locks amount to. */
    ghost var all: seq<KeyLock>
    ghost var table: LockTable<string>

    ghost predicate Valid()
      reads this, all
    {
      && |all| == |table.locks|
      && (forall i | 0 <= i < |all| :: all[i].id == i && table.locks[i] == Lock(all[i].refs, all[i].holder))
      && held.Keys == table.held.Keys
      && (forall name | name in held :: table.held[name] < |all| && all[table.held[name]] == held[name])
    }

    constructor ()
      ensures Valid() && table == Empty()
    {
      held, all, table := map[], [], Empty();
    }

    method Enter(name: string) returns (l: KeyLock)
      requires Valid()
      modifies this, all
      ensures Valid() && l in all && old(all) <= all
      ensures forall o | o in all :: o in old(all) || fresh(o)
      ensures (table, l.id) == CountIn(old(table), name)
    {
      if name in held {
        l := held[name];
      } else {
        l := new KeyLock(|all|);
        held := held[name := l];
        all := all + [l];
      }
      l.refs := l.refs + 1;
      table := CountIn(table, name).0;
    }

    /** The mutex of one lock: taken when free, otherwise the caller stays blocked. */
    method TryAcquire(l: KeyLock, t: Tid) returns (taken: bool)
      requires Valid() && l in all
      modifies l, this`table
      ensures Valid()
      ensures taken <==> old(l.holder) == None
      ensures table == if taken then SetHolder(old(table), l.id, Some(t)) else old(table)
    {
      assert all[l.id] == l;
      taken := l.holder == None;
      if taken {
        l.holder := Some(t);
        table := SetHolder(table, l.id, Some(t));
      }
    }

    method Release(l: KeyLock)
      requires Valid() && l in all
      modifies l, this`table
      ensures Valid()
      ensures table == SetHolder(old(table), l.id, None)
    {
      assert all[l.id] == l;
      l.holder := None;
      table := SetHolder(table, l.id, None);
    }

    method Leave(name: string, l: KeyLock)
      requires Valid() && l in all
      modifies this, l
      ensures Valid() && all == old(all)
      ensures table == CountOut(old(table), name, l.id)
    {
      assert all[l.id] == l;
      l.refs := l.refs - 1;
      table := CountOut(table, name, l.id);
      if l.refs == 0 {
        held := held - {name};
      }
    }
  }
}
