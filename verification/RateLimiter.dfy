/**
The fixed-window rate limiter (internal/httpapi/ratelimit.go).  Every operation runs
under the limiter's mutex, so a run is a sequence of operations; time is a number of
ticks that does not run backwards.
*/
module RateLimiter {
  import opened Arithmetic
  datatype Window = Window(count: int, start: int)
  type Table = map<string, Window>

  /** The limiter's two settings. */
  datatype Config = Config(limit: int, window: int) {
    predicate Live(w: Window, now: int) { now - w.start < window }

    predicate Blocks(table: Table, now: int, key: string) {
      key in table && Live(table[key], now) && table[key].count >= limit
    }

    /** The longest wait of the blocked keys, and whether there is one. */
    function Wait(table: Table, now: int, keys: seq<string>): (int, bool) {
      if keys == [] then (0, false)
      else
        var (wait, found) := Wait(table, now, keys[..|keys| - 1]);
        var key := keys[|keys| - 1];
        if !Blocks(table, now, key) then (wait, found)
        else
          var left := window - (now - table[key].start);
          (if left > wait then left else wait, true)
    }

    function Charge(table: Table, now: int, key: string): Table {
      if key in table && Live(table[key], now)
      then table[key := Window(table[key].count + 1, table[key].start)]
      else table[key := Window(1, now)]
    }

    function ChargeAll(table: Table, now: int, keys: seq<string>): Table {
      if keys == [] then table
      else Charge(ChargeAll(table, now, keys[..|keys| - 1]), now, keys[|keys| - 1])
    }

    function Swept(table: Table, now: int): Table {
      map key | key in table && Live(table[key], now) :: table[key]
    }

    function Recorded(table: Table, now: int, keys: seq<string>, sweeps: bool): Table {
      ChargeAll(if sweeps then Swept(table, now) else table, now, keys)
    }
  }

  lemma SweptIs(c: Config, table: Table, now: int, swept: Table)
    requires forall key :: key in swept <==> key in table && c.Live(table[key], now)
    requires forall key | key in swept :: swept[key] == table[key]
    ensures swept == c.Swept(table, now)
  {
  }

  function Without(table: Table, keys: seq<string>): Table {
    map key | key in table && key !in keys :: table[key]
  }

  class RateWindow {
    var count: int
    var start: int

    constructor (count: int, start: int)
      ensures this.count == count && this.start == start
    {
      this.count, this.start := count, start;
    }
  }

  class Limiter {
    const config: Config
    var windows: map<string, RateWindow>
    ghost var table: Table

    ghost predicate Valid()
      reads this, windows.Values
    {
      && windows.Keys == table.Keys
      && (forall key | key in windows :: table[key] == Window(windows[key].count, windows[key].start))
      && (forall a, b | a in windows && b in windows && windows[a] == windows[b] :: a == b)
    }

    constructor (limit: int, window: int)
      ensures Valid() && config == Config(limit, window) && table == map[]
      ensures windows == map[]
    {
      config := Config(limit, window);
      windows, table := map[], map[];
    }

    method BlockedLocked(now: int, keys: seq<string>) returns (retryAfter: int, found: bool)
      requires Valid()
      ensures (retryAfter, found) == config.Wait(table, now, keys)
    {
      retryAfter, found := 0, false;
      for i := 0 to |keys|
        invariant (retryAfter, found) == config.Wait(table, now, keys[..i])
      {
        assert keys[..i + 1][..i] == keys[..i];
        var key := keys[i];
        if key !in windows || now - windows[key].start >= config.window || windows[key].count < config.limit {
          continue;
        }
        found := true;
        var left := config.window - (now - windows[key].start);
        if left > retryAfter {
          retryAfter := left;
        }
      }
      assert keys[..|keys|] == keys;
    }

    method Sweep(now: int)
      requires Valid()
      modifies this
      ensures Valid() && table == config.Swept(old(table), now)
      ensures forall key | key in windows :: key in old(windows) && windows[key] == old(windows)[key]
    {
      var todo := windows.Keys;
      ghost var before, was := windows, table;
      while todo != {}
        invariant todo <= windows.Keys && windows.Keys == table.Keys
        invariant forall key :: key in windows <==> key in before && (key in todo || config.Live(was[key], now))
        invariant forall key | key in windows :: windows[key] == before[key] && table[key] == was[key]
        decreases |todo|
      {
        var key :| key in todo;
        todo := todo - {key};
        if now - windows[key].start >= config.window {
          windows := windows - {key};
          table := table - {key};
        }
      }
      SweptIs(config, was, now, table);
    }

    method RecordLocked(now: int, keys: seq<string>)
      requires Valid()
      modifies this, windows.Values
      ensures Valid() && table == config.Recorded(old(table), now, keys, true)
      ensures forall w | w in windows.Values :: w in old(windows).Values || fresh(w)
    {
      Sweep(now);
      ghost var swept := table;
      for i := 0 to |keys|
        invariant Valid() && table == config.ChargeAll(swept, now, keys[..i])
        invariant forall w | w in windows.Values :: w in old(windows).Values || fresh(w)
      {
        assert keys[..i + 1][..i] == keys[..i];
        Charge(now, keys[i]);
      }
      assert keys[..|keys|] == keys;
    }

    /** One round of the loop: a fresh window, or one more on the window there is. */
    method Charge(now: int, key: string)
      requires Valid()
      modifies this, windows.Values
      ensures Valid() && table == config.Charge(old(table), now, key)
      ensures forall w | w in windows.Values :: w in old(windows).Values || fresh(w)
    {
      table := config.Charge(table, now, key);
      if key !in windows || now - windows[key].start >= config.window {
        var w := new RateWindow(1, now);
        windows := windows[key := w];
      } else {
        windows[key].count := windows[key].count + 1;
      }
    }

    method Reset(keys: seq<string>)
      requires Valid()
      modifies this
      ensures Valid() && table == Without(old(table), keys)
      ensures windows.Values <= old(windows).Values
    {
      for i := 0 to |keys|
        invariant Valid() && windows.Values <= old(windows).Values
        invariant table == Without(old(table), keys[..i])
      {
        windows := windows - {keys[i]};
        table := table - {keys[i]};
      }
      assert keys[..|keys|] == keys;
    }

    method Allow(now: int, key: string) returns (retryAfter: int, allowed: bool)
      requires Valid()
      modifies this, windows.Values
      ensures Valid() && table == config.Recorded(old(table), now, [key], true)
      ensures (retryAfter, !allowed) == config.Wait(old(table), now, [key])
      ensures forall w | w in windows.Values :: w in old(windows).Values || fresh(w)
    {
      var blocked;
      retryAfter, blocked := BlockedLocked(now, [key]);
      RecordLocked(now, [key]);
      allowed := !blocked;
    }
  }

  // --------------------------------------------------------------------- runs

  datatype Op =
    | Check(now: int, keys: seq<string>)     // blocked
    | Failure(now: int, keys: seq<string>)   // record
    | Success(now: int, keys: seq<string>)   // reset
    | Attempt(now: int, key: string)         // allow
  {
    function Keys(): seq<string> { if Attempt? then [key] else keys }
  }

  /** What the caller is told: the wait, and whether to refuse. */
  function Answer(c: Config, table: Table, op: Op): (int, bool) {
    if op.Failure? || op.Success? then (0, false) else c.Wait(table, op.now, op.Keys())
  }

  function Apply(c: Config, table: Table, op: Op, sweeps: bool): Table {
    match op
    case Check(_, _) => table
    case Success(_, keys) => Without(table, keys)
    case Failure(now, keys) => c.Recorded(table, now, keys, sweeps)
    case Attempt(now, key) => c.Recorded(table, now, [key], sweeps)
  }

  function After(c: Config, table: Table, ops: seq<Op>, sweeps: bool): Table {
    if ops == [] then table
    else Apply(c, After(c, table, ops[..|ops| - 1], sweeps), ops[|ops| - 1], sweeps)
  }

  predicate InOrder(ops: seq<Op>) {
    forall i, j | 0 <= i < j < |ops| :: ops[i].now <= ops[j].now
  }

  // --------------------------------------------- sweeping cannot be observed

  /** Two tables a limiter cannot tell apart from `now` on. */
  predicate Alike(c: Config, a: Table, b: Table, now: int) { c.Swept(a, now) == c.Swept(b, now) }

  lemma AlikeAt(c: Config, a: Table, b: Table, now: int, key: string)
    requires Alike(c, a, b, now)
    ensures (key in a && c.Live(a[key], now)) <==> (key in b && c.Live(b[key], now))
    ensures key in a && c.Live(a[key], now) ==> a[key] == b[key]
  {
    assert key in c.Swept(a, now) <==> key in c.Swept(b, now);
    if key in c.Swept(a, now) {
      assert c.Swept(a, now)[key] == c.Swept(b, now)[key];
    }
  }

  lemma AlikeLater(c: Config, a: Table, b: Table, now: int, later: int)
    requires Alike(c, a, b, now) && now <= later
    ensures Alike(c, a, b, later)
  {
    forall key
      ensures key in c.Swept(a, later) <==> key in c.Swept(b, later)
      ensures key in c.Swept(a, later) ==> c.Swept(a, later)[key] == c.Swept(b, later)[key]
    {
      AlikeAt(c, a, b, now, key);
    }
  }

  lemma {:induction false} AlikeWaits(c: Config, a: Table, b: Table, now: int, keys: seq<string>)
    requires Alike(c, a, b, now)
    ensures c.Wait(a, now, keys) == c.Wait(b, now, keys)
  {
    if keys != [] {
      AlikeWaits(c, a, b, now, keys[..|keys| - 1]);
      AlikeAt(c, a, b, now, keys[|keys| - 1]);
    }
  }

  lemma AlikeCharge(c: Config, a: Table, b: Table, now: int, key: string)
    requires Alike(c, a, b, now)
    ensures Alike(c, c.Charge(a, now, key), c.Charge(b, now, key), now)
  {
    AlikeAt(c, a, b, now, key);
    var x, y := c.Charge(a, now, key), c.Charge(b, now, key);
    assert x[key] == y[key];
    forall k
      ensures k in c.Swept(x, now) <==> k in c.Swept(y, now)
      ensures k in c.Swept(x, now) ==> c.Swept(x, now)[k] == c.Swept(y, now)[k]
    {
      AlikeAt(c, a, b, now, k);
    }
  }

  lemma {:induction false} AlikeChargeAll(c: Config, a: Table, b: Table, now: int, keys: seq<string>)
    requires Alike(c, a, b, now)
    ensures Alike(c, c.ChargeAll(a, now, keys), c.ChargeAll(b, now, keys), now)
  {
    if keys != [] {
      AlikeChargeAll(c, a, b, now, keys[..|keys| - 1]);
      AlikeCharge(c, c.ChargeAll(a, now, keys[..|keys| - 1]), c.ChargeAll(b, now, keys[..|keys| - 1]), now,
                  keys[|keys| - 1]);
    }
  }

  lemma AlikeWithout(c: Config, a: Table, b: Table, now: int, keys: seq<string>)
    requires Alike(c, a, b, now)
    ensures Alike(c, Without(a, keys), Without(b, keys), now)
  {
    var x, y := Without(a, keys), Without(b, keys);
    forall k
      ensures k in c.Swept(x, now) <==> k in c.Swept(y, now)
      ensures k in c.Swept(x, now) ==> c.Swept(x, now)[k] == c.Swept(y, now)[k]
    {
      AlikeAt(c, a, b, now, k);
    }
  }

  lemma AlikeSwept(c: Config, a: Table, now: int)
    ensures Alike(c, c.Swept(a, now), a, now)
  {
    assert c.Swept(c.Swept(a, now), now) == c.Swept(a, now);
  }

  lemma AlikeApply(c: Config, a: Table, b: Table, op: Op)
    requires Alike(c, a, b, op.now)
    ensures Alike(c, Apply(c, a, op, true), Apply(c, b, op, false), op.now)
  {
    match op
    case Check(_, _) =>
    case Success(now, keys) => AlikeWithout(c, a, b, now, keys);
    case _ =>
      AlikeSwept(c, a, op.now);
      AlikeChargeAll(c, c.Swept(a, op.now), b, op.now, op.Keys());
  }

  /** The limiter that sweeps answers every caller as one that never sweeps would. */
  lemma {:induction false} SweepIsUnobservable(c: Config, ops: seq<Op>, i: nat)
    requires InOrder(ops) && i <= |ops|
    ensures var swept, plain := After(c, map[], ops[..i], true), After(c, map[], ops[..i], false);
      && (i < |ops| ==> Answer(c, swept, ops[i]) == Answer(c, plain, ops[i]))
      && (i < |ops| ==> Alike(c, swept, plain, ops[i].now))
  {
    if i > 0 {
      SweepIsUnobservable(c, ops, i - 1);
      assert ops[..i][..i - 1] == ops[..i - 1];
      var swept, plain := After(c, map[], ops[..i - 1], true), After(c, map[], ops[..i - 1], false);
      AlikeApply(c, swept, plain, ops[i - 1]);
      if i < |ops| {
        AlikeLater(c, After(c, map[], ops[..i], true), After(c, map[], ops[..i], false), ops[i - 1].now, ops[i].now);
      }
    }
    if i < |ops| {
      AlikeWaits(c, After(c, map[], ops[..i], true), After(c, map[], ops[..i], false), ops[i].now, ops[i].Keys());
    }
  }

  // ------------------------------------------------------- how much is granted

  predicate Granted(c: Config, ops: seq<Op>, i: nat, sweeps: bool)
    requires i < |ops|
  {
    ops[i].Attempt? && !Answer(c, After(c, map[], ops[..i], sweeps), ops[i]).1
  }

  /** How many attempts of a key were allowed at a time in [from, until). */
  function Grants(c: Config, ops: seq<Op>, key: string, from: int, until: int, sweeps: bool): nat {
    if ops == [] then 0
    else
      var n := |ops| - 1;
      Grants(c, ops[..n], key, from, until, sweeps)
      + if Granted(c, ops, n, sweeps) && ops[n].key == key && from <= ops[n].now < until then 1 else 0
  }

  lemma {:induction false} GrantsUnswept(c: Config, ops: seq<Op>, key: string, from: int, until: int)
    requires InOrder(ops)
    ensures Grants(c, ops, key, from, until, true) == Grants(c, ops, key, from, until, false)
  {
    if ops != [] {
      GrantsUnswept(c, ops[..|ops| - 1], key, from, until);
      SweepIsUnobservable(c, ops, |ops| - 1);
    }
  }

  predicate NeverReset(ops: seq<Op>, key: string) {
    forall op | op in ops :: op.Success? ==> key !in op.keys
  }

  /** The most that can have been granted from `from` on, given the key's window. */
  function Allowance(c: Config, w: Window, from: int): int {
    if w.start < from then Min(w.count, c.limit) - 1
    else if w.start < from + c.window then c.limit - 1 + Min(w.count, c.limit)
    else 2 * c.limit - 1
  }

  predicate WithinAllowance(c: Config, table: Table, key: string, from: int, grants: nat, last: int) {
    && (last < from ==> grants == 0)
    && (key !in table ==> grants == 0)
    && (key in table ==>
          table[key].count >= 1 && table[key].start <= last && grants <= Allowance(c, table[key], from))
  }

  /** One more charge keeps within the allowance, granted or not. */
  lemma ChargeWithinAllowance(c: Config, table: Table, key: string, from: int, grants: nat, last: int, now: int)
    requires c.limit >= 1 && c.window >= 1 && last <= now
    requires WithinAllowance(c, table, key, from, grants, last)
    ensures WithinAllowance(c, c.Charge(table, now, key), key, from, grants, now)
    ensures !c.Blocks(table, now, key) && from <= now < from + c.window ==>
      WithinAllowance(c, c.Charge(table, now, key), key, from, grants + 1, now)
  {
  }

  lemma {:induction false} ChargeAllWithinAllowance(
    c: Config, table: Table, keys: seq<string>, key: string, from: int, grants: nat, last: int, now: int)
    requires c.limit >= 1 && c.window >= 1 && last <= now
    requires WithinAllowance(c, table, key, from, grants, last)
    ensures WithinAllowance(c, c.ChargeAll(table, now, keys), key, from, grants, now)
  {
    if keys != [] {
      var rest := keys[..|keys| - 1];
      ChargeAllWithinAllowance(c, table, rest, key, from, grants, last, now);
      if keys[|keys| - 1] == key {
        ChargeWithinAllowance(c, c.ChargeAll(table, now, rest), key, from, grants, now, now);
      }
    } else if key in table {
      assert table[key].start <= now;
    }
  }

  lemma {:induction false} RunWithinAllowance(c: Config, ops: seq<Op>, key: string, from: int)
    requires c.limit >= 1 && c.window >= 1 && InOrder(ops) && NeverReset(ops, key)
    ensures ops != [] ==>
      WithinAllowance(c, After(c, map[], ops, false), key, from,
                      Grants(c, ops, key, from, from + c.window, false), ops[|ops| - 1].now)
  {
    if ops != [] {
      var n := |ops| - 1;
      var before, op := ops[..n], ops[n];
      RunWithinAllowance(c, before, key, from);
      var table := After(c, map[], before, false);
      var grants := Grants(c, before, key, from, from + c.window, false);
      var last := if n == 0 then op.now else before[n - 1].now;
      assert WithinAllowance(c, table, key, from, grants, last);
      assert op in ops;
      match op
      case Failure(now, keys) => ChargeAllWithinAllowance(c, table, keys, key, from, grants, last, now);
      case Attempt(now, k) =>
        assert [k][..0] == [] && c.ChargeAll(table, now, [k]) == c.Charge(table, now, k);
        assert c.Wait(table, now, [k]).1 == c.Blocks(table, now, k);
        if k == key {
          ChargeWithinAllowance(c, table, key, from, grants, last, now);
        } else {
          assert key in table ==> c.Charge(table, now, k)[key] == table[key];
        }
      case _ =>
    }
  }

  /** In any half-open interval one window long, at most twice the limit less one is granted. */
  lemma GrantedPerInterval(c: Config, ops: seq<Op>, key: string, from: int)
    requires c.limit >= 1 && c.window >= 1 && InOrder(ops) && NeverReset(ops, key)
    ensures Grants(c, ops, key, from, from + c.window, true) <= 2 * c.limit - 1
  {
    GrantsUnswept(c, ops, key, from, from + c.window);
    RunWithinAllowance(c, ops, key, from);
  }

  function Attempts(now: int, key: string, n: nat): seq<Op> {
    if n == 0 then [] else Attempts(now, key, n - 1) + [Attempt(now, key)]
  }

  lemma AttemptStep(c: Config, ops: seq<Op>, now: int, key: string, from: int, until: int)
    ensures var table, more := After(c, map[], ops, false), ops + [Attempt(now, key)];
      && After(c, map[], more, false) == c.Charge(table, now, key)
      && Grants(c, more, key, from, until, false) == Grants(c, ops, key, from, until, false)
           + if !c.Blocks(table, now, key) && from <= now < until then 1 else 0
  {
    var table, more := After(c, map[], ops, false), ops + [Attempt(now, key)];
    assert more[..|more| - 1] == ops;
    assert [key][..0] == [] && c.ChargeAll(table, now, [key]) == c.Charge(table, now, key);
    assert c.Wait(table, now, [key]).1 == c.Blocks(table, now, key);
  }

  lemma LiveAttempt(c: Config, ops: seq<Op>, now: int, key: string, from: int, until: int)
    requires var table := After(c, map[], ops, false);
      key in table && c.Live(table[key], now) && table[key].count < c.limit
    requires from <= now < until
    ensures var was, table := After(c, map[], ops, false), After(c, map[], ops + [Attempt(now, key)], false);
      && key in table && table[key] == Window(was[key].count + 1, was[key].start)
      && Grants(c, ops + [Attempt(now, key)], key, from, until, false) == Grants(c, ops, key, from, until, false) + 1
  {
    AttemptStep(c, ops, now, key, from, until);
  }

  /** A burst inside a live window that has room for it is granted whole. */
  lemma {:induction false} Burst(c: Config, ops: seq<Op>, now: int, key: string, n: nat, from: int, until: int)
    requires var table := After(c, map[], ops, false);
      key in table && c.Live(table[key], now) && table[key].count + n <= c.limit
    requires from <= now < until
    ensures var was, table := After(c, map[], ops, false), After(c, map[], ops + Attempts(now, key, n), false);
      && key in table && table[key] == Window(was[key].count + n, was[key].start)
      && Grants(c, ops + Attempts(now, key, n), key, from, until, false)
           == Grants(c, ops, key, from, until, false) + n
  {
    if n == 0 {
      assert ops + Attempts(now, key, 0) == ops;
    } else {
      Burst(c, ops, now, key, n - 1, from, until);
      LiveAttempt(c, ops + Attempts(now, key, n - 1), now, key, from, until);
      assert ops + Attempts(now, key, n) == ops + Attempts(now, key, n - 1) + [Attempt(now, key)];
    }
  }

  lemma {:induction false} OnlyAttempts(now: int, key: string, n: nat)
    ensures forall op | op in Attempts(now, key, n) :: op == Attempt(now, key)
  {
    if n > 0 { OnlyAttempts(now, key, n - 1); }
  }

  /** Attempts in order, none later than `last`. */
  ghost predicate AttemptsUpTo(ops: seq<Op>, last: int) {
    InOrder(ops) && forall op | op in ops :: op.Attempt? && op.now <= last
  }

  lemma ThenABurst(ops: seq<Op>, last: int, now: int, key: string, n: nat)
    requires AttemptsUpTo(ops, last) && last <= now
    ensures AttemptsUpTo(ops + Attempts(now, key, n), now)
  {
    OnlyAttempts(now, key, n);
    var more := Attempts(now, key, n);
    forall i, j | 0 <= i < j < |ops + more| ensures (ops + more)[i].now <= (ops + more)[j].now {
      if i < |ops| { assert ops[i] in ops; } else { assert more[i - |ops|] in more; }
      if |ops| <= j { assert more[j - |ops|] in more; }
    }
  }

  /** A first attempt at zero and a burst as its window ends. */
  function BurstAtTheEnd(c: Config, key: string): seq<Op>
    requires c.limit >= 1
  {
    [Attempt(0, key)] + Attempts(c.window - 1, key, c.limit - 1)
  }

  /** And another as the next window starts. */
  function TwoBursts(c: Config, key: string): seq<Op>
    requires c.limit >= 1
  {
    BurstAtTheEnd(c, key) + [Attempt(c.window, key)] + Attempts(c.window, key, c.limit - 1)
  }

  lemma OneAttempt(now: int, key: string)
    ensures Attempts(now, key, 1) == [Attempt(now, key)]
  {
    assert Attempts(now, key, 0) == [];
  }

  lemma TwoBurstsInOrder(c: Config, key: string)
    requires c.limit >= 1 && c.window >= 2
    ensures InOrder(TwoBursts(c, key)) && NeverReset(TwoBursts(c, key), key)
  {
    OneAttempt(c.window, key);
    ThenABurst([Attempt(0, key)], 0, c.window - 1, key, c.limit - 1);
    ThenABurst(BurstAtTheEnd(c, key), c.window - 1, c.window, key, 1);
    ThenABurst(BurstAtTheEnd(c, key) + [Attempt(c.window, key)], c.window, c.window, key, c.limit - 1);
  }

  /** The attempt that opens a window. */
  lemma FreshAttempt(c: Config, ops: seq<Op>, now: int, key: string, from: int, until: int)
    requires c.limit >= 1 && c.window >= 1
    requires var table := After(c, map[], ops, false); key in table ==> !c.Live(table[key], now)
    ensures var after := After(c, map[], ops + [Attempt(now, key)], false); key in after && after[key] == Window(1, now)
    ensures Grants(c, ops + [Attempt(now, key)], key, from, until, false)
         == Grants(c, ops, key, from, until, false) + if from <= now < until then 1 else 0
  {
    AttemptStep(c, ops, now, key, from, until);
  }

  lemma GrantedAtTheEnd(c: Config, key: string)
    requires c.limit >= 1 && c.window >= 2
    ensures var table := After(c, map[], BurstAtTheEnd(c, key), false); key in table && table[key] == Window(c.limit, 0)
    ensures Grants(c, BurstAtTheEnd(c, key), key, c.window - 1, c.window - 1 + c.window, false) == c.limit - 1
  {
    var end, until := c.window - 1, c.window - 1 + c.window;
    FreshAttempt(c, [], 0, key, end, until);
    assert [] + [Attempt(0, key)] == [Attempt(0, key)];
    Burst(c, [Attempt(0, key)], end, key, c.limit - 1, end, until);
  }

  lemma GrantedInBoth(c: Config, key: string)
    requires c.limit >= 1 && c.window >= 2
    ensures Grants(c, TwoBursts(c, key), key, c.window - 1, c.window - 1 + c.window, false) == 2 * c.limit - 1
  {
    var end, until := c.window - 1, c.window - 1 + c.window;
    var before := BurstAtTheEnd(c, key);
    GrantedAtTheEnd(c, key);
    FreshAttempt(c, before, c.window, key, end, until);
    Burst(c, before + [Attempt(c.window, key)], c.window, key, c.limit - 1, end, until);
  }

  /** The bound is reached, whatever the limit: a burst at the end of one window, one at the start of the next. */
  lemma BoundIsReached(c: Config, key: string) returns (ops: seq<Op>)
    requires c.limit >= 1 && c.window >= 2
    ensures InOrder(ops) && NeverReset(ops, key)
    ensures Grants(c, ops, key, c.window - 1, c.window - 1 + c.window, true) == 2 * c.limit - 1
  {
    ops := TwoBursts(c, key);
    TwoBurstsInOrder(c, key);
    GrantsUnswept(c, ops, key, c.window - 1, c.window - 1 + c.window);
    GrantedInBoth(c, key);
  }

  /** How many attempts of a key were allowed inside the window that started at `start`. */
  function GrantsOfWindow(c: Config, ops: seq<Op>, key: string, start: int): nat {
    if ops == [] then 0
    else
      var n := |ops| - 1;
      var table := After(c, map[], ops, false);
      GrantsOfWindow(c, ops[..n], key, start)
      + if Granted(c, ops, n, false) && ops[n].key == key && key in table && table[key].start == start then 1 else 0
  }

  predicate WithinWindow(c: Config, table: Table, key: string, start: int, grants: nat, last: int) {
    && grants <= c.limit
    && (key !in table ==> grants == 0)
    && (key in table ==>
          && table[key].count >= 1 && table[key].start <= last
          && (table[key].start == start ==> grants <= table[key].count)
          && (table[key].start < start ==> grants == 0))
  }

  lemma {:induction false} ChargeAllWithinWindow(
    c: Config, table: Table, keys: seq<string>, key: string, start: int, grants: nat, last: int, now: int)
    requires c.window >= 1 && last <= now && WithinWindow(c, table, key, start, grants, last)
    ensures WithinWindow(c, c.ChargeAll(table, now, keys), key, start, grants, now)
  {
    if keys != [] {
      ChargeAllWithinWindow(c, table, keys[..|keys| - 1], key, start, grants, last, now);
    }
  }

  lemma {:induction false} RunWithinWindow(c: Config, ops: seq<Op>, key: string, start: int)
    requires c.limit >= 1 && c.window >= 1 && InOrder(ops) && NeverReset(ops, key)
    ensures ops != [] ==>
      WithinWindow(c, After(c, map[], ops, false), key, start, GrantsOfWindow(c, ops, key, start), ops[|ops| - 1].now)
  {
    if ops != [] {
      var n := |ops| - 1;
      var before, op := ops[..n], ops[n];
      RunWithinWindow(c, before, key, start);
      var table := After(c, map[], before, false);
      var grants := GrantsOfWindow(c, before, key, start);
      var last := if n == 0 then op.now else before[n - 1].now;
      assert WithinWindow(c, table, key, start, grants, last);
      assert op in ops;
      match op
      case Failure(now, keys) => ChargeAllWithinWindow(c, table, keys, key, start, grants, last, now);
      case Attempt(now, k) =>
        assert [k][..0] == [] && c.ChargeAll(table, now, [k]) == c.Charge(table, now, k);
        assert c.Wait(table, now, [k]).1 == c.Blocks(table, now, k);
        assert key in table && k != key ==> c.Charge(table, now, k)[key] == table[key];
      case _ =>
    }
  }

  /** No window grants more than the limit. */
  lemma GrantedPerWindow(c: Config, ops: seq<Op>, key: string, start: int)
    requires c.limit >= 1 && c.window >= 1 && InOrder(ops) && NeverReset(ops, key)
    ensures GrantsOfWindow(c, ops, key, start) <= c.limit
  {
    RunWithinWindow(c, ops, key, start);
  }

  /** While only attempts charge a key, its window grants as many as it counts, up to the limit. */
  lemma {:induction false} WindowIsUsed(c: Config, ops: seq<Op>, key: string)
    requires c.limit >= 1 && c.window >= 1 && InOrder(ops) && NeverReset(ops, key)
    requires forall op | op in ops && op.Failure? :: key !in op.keys
    ensures var table := After(c, map[], ops, false);
      key in table ==> GrantsOfWindow(c, ops, key, table[key].start) == Min(table[key].count, c.limit)
  {
    if ops != [] {
      var n := |ops| - 1;
      var before, op := ops[..n], ops[n];
      var table := After(c, map[], before, false);
      WindowIsUsed(c, before, key);
      assert op in ops;
      match op
      case Failure(now, keys) => KeyNotCharged(c, table, keys, key, now);
      case Attempt(now, k) =>
        RunWithinWindow(c, before, key, now);
        assert [k][..0] == [] && c.ChargeAll(table, now, [k]) == c.Charge(table, now, k);
        assert c.Wait(table, now, [k]).1 == c.Blocks(table, now, k);
        assert key in table && k != key ==> c.Charge(table, now, k)[key] == table[key];
      case _ =>
    }
  }

  lemma {:induction false} KeyNotCharged(c: Config, table: Table, keys: seq<string>, key: string, now: int)
    requires key !in keys
    ensures var after := c.ChargeAll(table, now, keys);
      (key in after <==> key in table) && (key in table ==> after[key] == table[key])
  {
    if keys != [] {
      KeyNotCharged(c, table, keys[..|keys| - 1], key, now);
      assert keys[|keys| - 1] in keys;
    }
  }

  // ------------------------------------------------------------ what a wait means

  lemma {:induction false} WaitIsTheLongest(c: Config, table: Table, now: int, keys: seq<string>)
    ensures var (wait, found) := c.Wait(table, now, keys);
      && (found <==> exists i :: 0 <= i < |keys| && c.Blocks(table, now, keys[i]))
      && (forall i | 0 <= i < |keys| && c.Blocks(table, now, keys[i]) ::
            0 < c.window - (now - table[keys[i]].start) <= wait)
      && (found ==> exists i :: 0 <= i < |keys| && c.Blocks(table, now, keys[i])
                             && wait == c.window - (now - table[keys[i]].start))
      && (!found ==> wait == 0)
  {
    if keys != [] {
      var n := |keys| - 1;
      WaitIsTheLongest(c, table, now, keys[..n]);
      var (wait, found) := c.Wait(table, now, keys[..n]);
      if found {
        var i :| 0 <= i < n && c.Blocks(table, now, keys[..n][i])
              && wait == c.window - (now - table[keys[..n][i]].start);
        assert keys[i] == keys[..n][i];
      }
      forall i | 0 <= i < n ensures keys[..n][i] == keys[i] {}
    }
  }

  /** While a full window is live nothing but a reset changes its start, or makes room in it. */
  lemma {:induction false} FullWindowStays(c: Config, table: Table, ops: seq<Op>, key: string, now: int)
    requires c.Blocks(table, now, key) && InOrder(ops) && NeverReset(ops, key)
    requires forall op | op in ops :: now <= op.now < table[key].start + c.window
    ensures var after := After(c, table, ops, true);
      key in after && after[key].start == table[key].start && after[key].count >= c.limit
  {
    if ops != [] {
      var n := |ops| - 1;
      FullWindowStays(c, table, ops[..n], key, now);
      assert ops[n] in ops;
      match ops[n]
      case Failure(t, keys) => FullWindowCharged(c, c.Swept(After(c, table, ops[..n], true), t), keys, key, t);
      case Attempt(t, k) => FullWindowCharged(c, c.Swept(After(c, table, ops[..n], true), t), [k], key, t);
      case _ =>
    }
  }

  lemma {:induction false} FullWindowCharged(c: Config, table: Table, keys: seq<string>, key: string, now: int)
    requires c.Blocks(table, now, key)
    ensures var after := c.ChargeAll(table, now, keys);
      c.Blocks(after, now, key) && after[key].start == table[key].start
  {
    if keys != [] {
      FullWindowCharged(c, table, keys[..|keys| - 1], key, now);
    }
  }

  /** Refused for the whole of the wait, whatever is recorded meanwhile. */
  lemma WaitIsSound(c: Config, table: Table, now: int, keys: seq<string>, ops: seq<Op>, later: int)
    requires c.Wait(table, now, keys).1 && now <= later < now + c.Wait(table, now, keys).0
    requires InOrder(ops) && forall key | key in keys :: NeverReset(ops, key)
    requires forall op | op in ops :: now <= op.now <= later
    ensures c.Wait(After(c, table, ops, true), later, keys).1
  {
    WaitIsTheLongest(c, table, now, keys);
    var i :| 0 <= i < |keys| && c.Blocks(table, now, keys[i])
          && c.Wait(table, now, keys).0 == c.window - (now - table[keys[i]].start);
    assert keys[i] in keys;
    FullWindowStays(c, table, ops, keys[i], now);
    WaitIsTheLongest(c, After(c, table, ops, true), later, keys);
    assert c.Blocks(After(c, table, ops, true), later, keys[i]);
  }

  predicate Charges(op: Op, key: string) { (op.Failure? || op.Attempt?) && key in op.Keys() }

  function Times(keys: seq<string>, key: string): nat {
    if keys == [] then 0 else Times(keys[..|keys| - 1], key) + if keys[|keys| - 1] == key then 1 else 0
  }

  /** How often a key is charged at or after a time. */
  function ChargesFrom(ops: seq<Op>, key: string, time: int): nat {
    if ops == [] then 0
    else
      var op := ops[|ops| - 1];
      ChargesFrom(ops[..|ops| - 1], key, time)
      + if (op.Failure? || op.Attempt?) && op.now >= time then Times(op.Keys(), key) else 0
  }

  lemma {:induction false} NoTimes(keys: seq<string>, key: string)
    ensures Times(keys, key) == 0 <==> key !in keys
  {
    if keys != [] {
      NoTimes(keys[..|keys| - 1], key);
      assert keys == keys[..|keys| - 1] + [keys[|keys| - 1]];
    }
  }

  lemma {:induction false} NoCharges(ops: seq<Op>, key: string, time: int)
    requires forall op | op in ops && Charges(op, key) :: op.now < time
    ensures ChargesFrom(ops, key, time) == 0
  {
    if ops != [] {
      NoCharges(ops[..|ops| - 1], key, time);
      assert ops[|ops| - 1] in ops;
      NoTimes(ops[|ops| - 1].Keys(), key);
    }
  }

  /** A key charged so many times at once: its live window counts on, or a new one starts. */
  function Recharged(c: Config, table: Table, now: int, key: string, n: nat): Window {
    if key in table && c.Live(table[key], now) then Window(table[key].count + n, table[key].start) else Window(n, now)
  }

  lemma {:induction false} ChargedTimes(c: Config, table: Table, now: int, keys: seq<string>, key: string)
    requires c.window >= 1 || (key in table && c.Live(table[key], now)) || Times(keys, key) == 0
    ensures var after, n := c.ChargeAll(table, now, keys), Times(keys, key);
      && (n == 0 ==> (key in after <==> key in table) && (key in table ==> after[key] == table[key]))
      && (n > 0 ==> key in after && after[key] == Recharged(c, table, now, key, n))
  {
    if keys != [] {
      ChargedTimes(c, table, now, keys[..|keys| - 1], key);
    }
  }

  /**
  What has become of a window that ended at `end`: it is as it was or swept until a charge
  opens a new one, and that one counts every charge since.
  */
  predicate Renewed(c: Config, table: Table, key: string, start: int, charges: nat, until: int) {
    if charges == 0 then key in table ==> table[key].start == start
    else
      && key in table && table[key].count == charges
      && start + c.window <= table[key].start <= until < table[key].start + c.window
  }

  lemma RenewedByOne(c: Config, before: Table, op: Op, key: string, start: int, charges: nat, until: int)
    requires (op.Failure? || op.Attempt?) && Renewed(c, before, key, start, charges, until)
    requires op.now < start + c.window ==> charges == 0 && key in before
    requires charges > 0 || (op.now >= start + c.window && Times(op.Keys(), key) > 0) ==>
               c.window >= 1 && op.now <= until < start + 2 * c.window
    ensures var after := Apply(c, before, op, true);
      && Renewed(c, after, key, start, charges + ChargesFrom([op], key, start + c.window), until)
      && (op.now < start + c.window ==> key in after)
  {
    assert [op][..0] == [];
    ChargedTimes(c, c.Swept(before, op.now), op.now, op.Keys(), key);
  }

  lemma {:induction false} RunRenewed(c: Config, table: Table, ops: seq<Op>, key: string, until: int)
    requires key in table && InOrder(ops) && NeverReset(ops, key)
    requires ChargesFrom(ops, key, table[key].start + c.window) > 0 ==>
               c.window >= 1 && until < table[key].start + 2 * c.window && forall op | op in ops :: op.now <= until
    ensures var after, end := After(c, table, ops, true), table[key].start + c.window;
      && Renewed(c, after, key, table[key].start, ChargesFrom(ops, key, end), until)
      && (key !in after ==> ops != [] && ops[|ops| - 1].now >= end)
  {
    var end := table[key].start + c.window;
    if ops != [] {
      var n := |ops| - 1;
      RunRenewed(c, table, ops[..n], key, until);
      var before, op := After(c, table, ops[..n], true), ops[n];
      assert op in ops && [op][..0] == [];
      if op.Failure? || op.Attempt? {
        if op.now < end { NoCharges(ops[..n], key, end); }
        assert ChargesFrom(ops, key, end) == ChargesFrom(ops[..n], key, end) + ChargesFrom([op], key, end);
        RenewedByOne(c, before, op, key, table[key].start, ChargesFrom(ops[..n], key, end), until);
      }
    }
  }

  /**
  And no longer: once the wait is over, a key that was blocked is blocked anew exactly when
  it was charged up to the limit after its own window had ended.
  */
  lemma WaitIsExactIff(c: Config, table: Table, now: int, keys: seq<string>, ops: seq<Op>, key: string)
    requires c.limit >= 1 && c.window >= 1 && forall k | k in table :: table[k].start <= now
    requires key in keys && c.Blocks(table, now, key)
    requires InOrder(ops) && NeverReset(ops, key)
    requires forall op | op in ops :: op.now <= now + c.Wait(table, now, keys).0
    ensures c.Blocks(After(c, table, ops, true), now + c.Wait(table, now, keys).0, key) <==>
              ChargesFrom(ops, key, table[key].start + c.window) >= c.limit
  {
    WaitIsTheLongest(c, table, now, keys);
    var i :| 0 <= i < |keys| && keys[i] == key;
    RunRenewed(c, table, ops, key, now + c.Wait(table, now, keys).0);
  }

  /** In particular one not charged since is free, however long ago its window began. */
  lemma WaitIsExact(c: Config, table: Table, now: int, keys: seq<string>, ops: seq<Op>, key: string)
    requires key in keys && c.Blocks(table, now, key)
    requires InOrder(ops) && NeverReset(ops, key)
    requires forall op | op in ops && Charges(op, key) :: op.now < table[key].start + c.window
    ensures !c.Blocks(After(c, table, ops, true), now + c.Wait(table, now, keys).0, key)
  {
    WaitIsTheLongest(c, table, now, keys);
    var i :| 0 <= i < |keys| && keys[i] == key;
    NoCharges(ops, key, table[key].start + c.window);
    RunRenewed(c, table, ops, key, now);
  }

  /** With a limit of one a single charge is enough, while another key still has to be waited for. */
  lemma ChargedAgain(a: string, b: string) returns (c: Config, table: Table, ops: seq<Op>)
    requires a != b
    ensures c.Blocks(table, 9, a) && c.Blocks(table, 9, b) && InOrder(ops) && NeverReset(ops, a)
    ensures c.Blocks(After(c, table, ops, true), 9 + c.Wait(table, 9, [a, b]).0, a)
  {
    c, table, ops := Config(1, 10), map[a := Window(1, 0), b := Window(1, 9)], [Failure(10, [a])];
    var keys := [a, b];
    WaitIsTheLongest(c, table, 9, keys);
    assert c.Blocks(table, 9, keys[1]);
    assert ops[..0] == [] && [a][..0] == [];
    WaitIsExactIff(c, table, 9, keys, ops, a);
  }

  // ------------------------------------------------------------- what a reset does

  /** Two tables a question about one key cannot tell apart. */
  predicate SameAt(a: Table, b: Table, key: string) { (key in a <==> key in b) && (key in a ==> a[key] == b[key]) }

  lemma {:induction false} ChargeAllSame(c: Config, a: Table, b: Table, now: int, keys: seq<string>, key: string)
    requires SameAt(a, b, key)
    ensures SameAt(c.ChargeAll(a, now, keys), c.ChargeAll(b, now, keys), key)
  {
    if keys != [] {
      ChargeAllSame(c, a, b, now, keys[..|keys| - 1], key);
    }
  }

  lemma ApplySame(c: Config, a: Table, b: Table, op: Op, key: string)
    requires SameAt(a, b, key)
    ensures SameAt(Apply(c, a, op, true), Apply(c, b, op, true), key)
  {
    match op
    case Check(_, _) =>
    case Success(_, _) =>
    case _ => ChargeAllSame(c, c.Swept(a, op.now), c.Swept(b, op.now), op.now, op.Keys(), key);
  }

  lemma {:induction false} RunSame(c: Config, a: Table, b: Table, ops: seq<Op>, key: string)
    requires SameAt(a, b, key)
    ensures SameAt(After(c, a, ops, true), After(c, b, ops, true), key)
  {
    if ops != [] {
      var n := |ops| - 1;
      RunSame(c, a, b, ops[..n], key);
      ApplySame(c, After(c, a, ops[..n], true), After(c, b, ops[..n], true), ops[n], key);
    }
  }

  lemma {:induction false} AfterBoth(c: Config, table: Table, ops: seq<Op>, more: seq<Op>)
    ensures After(c, table, ops + more, true) == After(c, After(c, table, ops, true), more, true)
  {
    if more == [] {
      assert ops + more == ops;
    } else {
      var n := |more| - 1;
      assert (ops + more)[..|ops + more| - 1] == ops + more[..n] && (ops + more)[|ops + more| - 1] == more[n];
      AfterBoth(c, table, ops, more[..n]);
    }
  }

  lemma AfterOne(c: Config, table: Table, ops: seq<Op>, op: Op)
    ensures After(c, table, ops + [op], true) == Apply(c, After(c, table, ops, true), op, true)
  {
    assert (ops + [op])[..|ops|] == ops;
  }

  /** A reset key is as one that never was: only what follows the reset counts for it. */
  lemma ResetForgets(c: Config, ops: seq<Op>, t: int, keys: seq<string>, more: seq<Op>, key: string, now: int)
    requires key in keys
    ensures var was, unknown := After(c, map[], ops + [Success(t, keys)] + more, true), After(c, map[], more, true);
      SameAt(was, unknown, key) && c.Wait(was, now, [key]) == c.Wait(unknown, now, [key])
  {
    AfterOne(c, map[], ops, Success(t, keys));
    AfterBoth(c, map[], ops + [Success(t, keys)], more);
    RunSame(c, After(c, map[], ops + [Success(t, keys)], true), map[], more, key);
    assert [key][..0] == [];
  }

  /** And a key that was not among them is answered as if there had been no reset. */
  lemma ResetSparesOthers(c: Config, ops: seq<Op>, t: int, keys: seq<string>, more: seq<Op>, key: string, now: int)
    requires key !in keys
    ensures var was := After(c, map[], ops + [Success(t, keys)] + more, true);
      var spared := After(c, map[], ops + more, true);
      SameAt(was, spared, key) && c.Wait(was, now, [key]) == c.Wait(spared, now, [key])
  {
    AfterOne(c, map[], ops, Success(t, keys));
    AfterBoth(c, map[], ops + [Success(t, keys)], more);
    AfterBoth(c, map[], ops, more);
    RunSame(c, After(c, map[], ops + [Success(t, keys)], true), After(c, map[], ops, true), more, key);
    assert [key][..0] == [];
  }

  /** A window counts no more than the charges there were. */
  lemma {:induction false} CountIsCharged(c: Config, ops: seq<Op>, key: string, time: int)
    requires c.window >= 1 && forall op | op in ops :: op.now >= time
    ensures var table := After(c, map[], ops, true); key in table ==> table[key].count <= ChargesFrom(ops, key, time)
  {
    if ops != [] {
      var n := |ops| - 1;
      CountIsCharged(c, ops[..n], key, time);
      assert ops[n] in ops;
      if ops[n].Failure? || ops[n].Attempt? {
        ChargedTimes(c, c.Swept(After(c, map[], ops[..n], true), ops[n].now), ops[n].now, ops[n].Keys(), key);
      }
    }
  }

  /** So after a reset it takes the whole limit again to block. */
  lemma BlockedSinceReset(c: Config, ops: seq<Op>, t: int, keys: seq<string>, more: seq<Op>, key: string, now: int)
    requires c.window >= 1 && key in keys && InOrder(ops + [Success(t, keys)] + more)
    requires c.Wait(After(c, map[], ops + [Success(t, keys)] + more, true), now, [key]).1
    ensures ChargesFrom(more, key, t) >= c.limit
  {
    var all := ops + [Success(t, keys)] + more;
    ResetForgets(c, ops, t, keys, more, key, now);
    forall op | op in more ensures op.now >= t {
      var j :| 0 <= j < |more| && more[j] == op;
      assert all[|ops|] == Success(t, keys) && all[|ops| + 1 + j] == op;
    }
    CountIsCharged(c, more, key, t);
    WaitIsTheLongest(c, After(c, map[], more, true), now, [key]);
  }
}
