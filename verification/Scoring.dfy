/**
Scoring a day's events (internal/gamification/coalesce.go).  The specification adds up, over
every chain of events of one reference and group, the most one event of the chain is worth;
it is stated on the set of events, so neither their order nor repeats can matter.
*/
module Scoring {
  import opened Arithmetic
  import opened Sorting

  type Ref = string

  /** `at` counts nanoseconds. */
  datatype Event = Event(ref: Ref, kind: string, at: int, xp: int)

  /** Two hours. */
  const SCORE_WINDOW: int := 7_200_000_000_000

  const CONFIRM_ACTION := "confirm action"

  /** Accepting what the AI saw and correcting it are two outcomes of one action. */
  function CoalesceGroup(kind: string): string {
    if kind == "vision_ingestion" || kind == "ai_correction" then CONFIRM_ACTION else kind
  }

  lemma SameGroupIff(a: string, b: string)
    requires a != CONFIRM_ACTION && b != CONFIRM_ACTION
    ensures CoalesceGroup(a) == CoalesceGroup(b) <==>
              (a == b || {a, b} == {"vision_ingestion", "ai_correction"})
  {
  }

  datatype Key = Key(ref: Ref, group: string)

  function KeyOf(e: Event): Key { Key(e.ref, CoalesceGroup(e.kind)) }

  // ------------------------------------------------------------- specification

  /** Where a chain starts: no event of the key came less than a window before. */
  datatype Start = Start(key: Key, at: int)

  predicate IsStart(events: set<Event>, key: Key, at: int) {
    forall e | e in events && KeyOf(e) == key && e.at < at :: at - e.at >= SCORE_WINDOW
  }

  function Starts(events: set<Event>): set<Start> {
    set e | e in events && IsStart(events, KeyOf(e), e.at) :: Start(KeyOf(e), e.at)
  }

  /** An event belongs to the latest start of its key that is not after it. */
  predicate Belongs(events: set<Event>, s: Start, e: Event) {
    && KeyOf(e) == s.key && s.at <= e.at
    && (forall f | f in events && KeyOf(f) == s.key && s.at < f.at <= e.at :: !IsStart(events, s.key, f.at))
  }

  function Chain(events: set<Event>, s: Start): set<Event> {
    set e | e in events && Belongs(events, s, e)
  }

  /** The most any of the events is worth, and never less than nothing. */
  ghost function Highest(events: set<Event>): (most: int)
    ensures most >= 0
    ensures forall e | e in events :: e.xp <= most
    ensures most > 0 ==> exists e :: e in events && e.xp == most
  {
    if events == {} then 0
    else
      var e :| e in events;
      var rest := Highest(events - {e});
      if e.xp > rest then e.xp else rest
  }

  ghost function Sum(events: set<Event>, starts: set<Start>): int {
    if starts == {} then 0
    else
      var s :| s in starts;
      Highest(Chain(events, s)) + Sum(events, starts - {s})
  }

  ghost function Score(events: set<Event>): int { Sum(events, Starts(events)) }

  // --------------------------------------------------------- sums over starts

  lemma {:induction false} SumPick(events: set<Event>, starts: set<Start>, s: Start)
    requires s in starts
    ensures Sum(events, starts) == Highest(Chain(events, s)) + Sum(events, starts - {s})
    decreases starts
  {
    var t :| t in starts && Sum(events, starts) == Highest(Chain(events, t)) + Sum(events, starts - {t});
    if t != s {
      SumPick(events, starts - {t}, s);
      SumPick(events, starts - {s}, t);
      assert starts - {t} - {s} == starts - {s} - {t};
    }
  }

  lemma {:induction false} SumUnion(events: set<Event>, a: set<Start>, b: set<Start>)
    requires a !! b
    ensures Sum(events, a + b) == Sum(events, a) + Sum(events, b)
    decreases a
  {
    if a == {} {
      assert a + b == b;
    } else {
      var s :| s in a;
      SumPick(events, a, s);
      SumPick(events, a + b, s);
      SumUnion(events, a - {s}, b);
      assert a + b - {s} == (a - {s}) + b;
    }
  }

  lemma {:induction false} SumSame(events: set<Event>, others: set<Event>, starts: set<Start>)
    requires forall s | s in starts :: Chain(events, s) == Chain(others, s)
    ensures Sum(events, starts) == Sum(others, starts)
    decreases starts
  {
    if starts != {} {
      var s :| s in starts;
      SumPick(events, starts, s);
      SumPick(others, starts, s);
      SumSame(events, others, starts - {s});
    }
  }

  lemma HighestIs(events: set<Event>, most: int)
    requires most >= 0
    requires forall e | e in events :: e.xp <= most
    requires most > 0 ==> exists e :: e in events && e.xp == most
    ensures Highest(events) == most
  {
  }

  // ---------------------------------------------- what the specification says

  lemma {:induction false} Latest(events: set<Event>) returns (e: Event)
    requires events != {}
    ensures e in events && forall f | f in events :: f.at <= e.at
  {
    e :| e in events;
    if events != {e} {
      var f := Latest(events - {e});
      if f.at > e.at { e := f; }
    }
  }

  function Before(events: set<Event>, e: Event): set<Event> {
    set f | f in events && KeyOf(f) == KeyOf(e) && f.at < e.at
  }

  predicate Follows(chain: set<Event>, e: Event) {
    exists f | f in chain :: 0 < e.at - f.at < SCORE_WINDOW
  }

  /** Every event belongs to a chain, and within the chain follows another within the window. */
  lemma {:induction false} InSomeChain(events: set<Event>, e: Event) returns (s: Start)
    requires e in events
    ensures s in Starts(events) && e in Chain(events, s)
    ensures e.at > s.at ==> Follows(Chain(events, s), e)
    decreases Before(events, e)
  {
    if IsStart(events, KeyOf(e), e.at) {
      s := Start(KeyOf(e), e.at);
    } else {
      var g :| g in events && KeyOf(g) == KeyOf(e) && g.at < e.at && e.at - g.at < SCORE_WINDOW;
      assert g in Before(events, e);
      var f := Latest(Before(events, e));
      assert f !in Before(events, f) && Before(events, f) <= Before(events, e);
      s := InSomeChain(events, f);
    }
  }

  /** And to no other. */
  lemma InOneChain(events: set<Event>, e: Event, s: Start, t: Start)
    requires s in Starts(events) && t in Starts(events) && e in Chain(events, s) && e in Chain(events, t)
    ensures s == t
  {
  }

  /** Nothing an event of another key does counts: scores of sets sharing no key add up. */
  lemma KeysAddUp(a: set<Event>, b: set<Event>)
    requires forall e, f | e in a && f in b :: KeyOf(e) != KeyOf(f)
    ensures Score(a + b) == Score(a) + Score(b)
  {
    StartsApart(a, b);
    assert b + a == a + b;
    StartsApart(b, a);
    forall s | s in Starts(a + b) ensures s in Starts(a) || s in Starts(b) {
    }
    assert Starts(a + b) == Starts(a) + Starts(b);
    SumUnion(a + b, Starts(a), Starts(b));
    SumSame(a, a + b, Starts(a));
    SumSame(b, a + b, Starts(b));
  }

  lemma StartsApart(a: set<Event>, b: set<Event>)
    requires forall e, f | e in a && f in b :: KeyOf(e) != KeyOf(f)
    ensures forall e | e in a :: IsStart(a + b, KeyOf(e), e.at) <==> IsStart(a, KeyOf(e), e.at)
    ensures forall s | s in Starts(a) :: s in Starts(a + b) && s !in Starts(b) && Chain(a, s) == Chain(a + b, s)
  {
    forall e | e in a ensures IsStart(a + b, KeyOf(e), e.at) <==> IsStart(a, KeyOf(e), e.at) {
    }
    forall s | s in Starts(a) ensures s !in Starts(b) && Chain(a, s) == Chain(a + b, s) {
      forall e ensures e in Chain(a, s) <==> e in Chain(a + b, s) {
      }
    }
  }

  // ------------------------------------------------------------ the last chain

  ghost predicate OneKey(events: set<Event>, key: Key) { forall e | e in events :: KeyOf(e) == key }

  /** A window or more lies between the events of the one and those of the other. */
  ghost predicate Apart(a: set<Event>, b: set<Event>) { forall e, f | e in a && f in b :: f.at - e.at >= SCORE_WINDOW }

  /** Events of one key, after the others by a window or more, with no such gap among themselves. */
  ghost predicate NextChain(before: set<Event>, chain: set<Event>, n: Start) {
    && (exists e | e in chain :: e.at == n.at)
    && OneKey(before + chain, n.key)
    && Apart(before, chain)
    && (forall e {:trigger Follows(chain, e)} | e in chain :: e.at == n.at || Follows(chain, e))
    && (forall e | e in chain :: n.at <= e.at)
  }

  lemma OnlyTheFirstStarts(before: set<Event>, chain: set<Event>, n: Start, e: Event)
    requires NextChain(before, chain, n) && e in chain
    ensures IsStart(before + chain, n.key, e.at) ==> e.at == n.at
  {
    if e.at != n.at {
      assert Follows(chain, e);
      var f :| f in chain && 0 < e.at - f.at < SCORE_WINDOW;
      assert f in before + chain && KeyOf(f) == n.key;
    }
  }

  lemma NextChainStarts(before: set<Event>, chain: set<Event>, n: Start)
    requires NextChain(before, chain, n)
    ensures Starts(before + chain) == Starts(before) + {n} && n !in Starts(before)
  {
    var all := before + chain;
    var first :| first in chain && first.at == n.at;
    assert IsStart(all, n.key, n.at);
    assert n in Starts(all) by { assert KeyOf(first) == n.key; }
    forall e | e in before ensures IsStart(all, n.key, e.at) <==> IsStart(before, n.key, e.at) {
    }
    forall s | s in Starts(all) ensures s in Starts(before) + {n} {
      var e :| e in all && IsStart(all, KeyOf(e), e.at) && s == Start(KeyOf(e), e.at);
      if e in chain { OnlyTheFirstStarts(before, chain, n, e); }
    }
    forall s | s in Starts(before) ensures s in Starts(all) && s != n {
    }
  }

  lemma NextChainScores(before: set<Event>, chain: set<Event>, n: Start)
    requires NextChain(before, chain, n)
    ensures Score(before + chain) == Score(before) + Highest(chain)
  {
    var all := before + chain;
    NextChainStarts(before, chain, n);
    forall s | s in Starts(before) ensures Chain(all, s) == Chain(before, s) {
      OlderChain(before, chain, n, s);
    }
    assert Chain(all, n) == chain by { NewestChain(before, chain, n); }
    SumSame(before, all, Starts(before));
    SumPick(all, Starts(all), n);
    assert Starts(all) - {n} == Starts(before);
  }

  lemma OlderChain(before: set<Event>, chain: set<Event>, n: Start, s: Start)
    requires NextChain(before, chain, n) && s in Starts(before)
    requires Starts(before + chain) == Starts(before) + {n}
    ensures Chain(before + chain, s) == Chain(before, s)
  {
    var all := before + chain;
    var first :| first in chain && first.at == n.at;
    assert n in Starts(all) && IsStart(all, n.key, n.at);
    forall e | e in before ensures IsStart(all, n.key, e.at) <==> IsStart(before, n.key, e.at) {
      assert Start(n.key, e.at) in Starts(before) <==> IsStart(before, KeyOf(e), e.at);
    }
    forall e ensures e in Chain(all, s) <==> e in Chain(before, s) {
      if e in chain { assert KeyOf(first) == s.key && s.at < first.at <= e.at; }
    }
  }

  lemma NewestChain(before: set<Event>, chain: set<Event>, n: Start)
    requires NextChain(before, chain, n)
    ensures Chain(before + chain, n) == chain
  {
    var first :| first in chain && first.at == n.at;
    forall e | e in chain ensures Belongs(before + chain, n, e) {
      forall f | f in before + chain && n.at < f.at <= e.at ensures !IsStart(before + chain, n.key, f.at) {
        assert f in chain;
        OnlyTheFirstStarts(before, chain, n, f);
      }
    }
  }

  // --------------------------------------------------- sets with a window between

  lemma StartsStay(a: set<Event>, b: set<Event>, key: Key)
    requires OneKey(a + b, key) && Apart(a, b)
    ensures forall e | e in a :: IsStart(a + b, key, e.at) <==> IsStart(a, key, e.at)
    ensures forall f | f in b :: IsStart(a + b, key, f.at) <==> IsStart(b, key, f.at)
    ensures Starts(a + b) == Starts(a) + Starts(b)
    ensures Starts(a) !! Starts(b)
  {
    forall e | e in a ensures IsStart(a + b, key, e.at) <==> IsStart(a, key, e.at) {
    }
    forall f | f in b ensures IsStart(a + b, key, f.at) <==> IsStart(b, key, f.at) {
    }
    forall s ensures s in Starts(a + b) <==> s in Starts(a) || s in Starts(b) {
    }
  }

  lemma EarlierChainStays(a: set<Event>, b: set<Event>, key: Key, s: Start)
    requires OneKey(a + b, key) && Apart(a, b) && s in Starts(a)
    ensures Chain(a + b, s) == Chain(a, s)
  {
    StartsStay(a, b, key);
    var first :| first in a && s == Start(KeyOf(first), first.at);
    forall e ensures e in Chain(a + b, s) <==> e in Chain(a, s) {
      if e in b {
        var t := InSomeChain(b, e);
        var g :| g in b && IsStart(b, KeyOf(g), g.at) && t == Start(KeyOf(g), g.at);
        assert first.at < g.at <= e.at && IsStart(a + b, key, g.at);
      }
    }
  }

  lemma LaterChainStays(a: set<Event>, b: set<Event>, key: Key, t: Start)
    requires OneKey(a + b, key) && Apart(a, b) && t in Starts(b)
    ensures Chain(a + b, t) == Chain(b, t)
  {
    StartsStay(a, b, key);
    var first :| first in b && t == Start(KeyOf(first), first.at);
    forall e ensures e in Chain(a + b, t) <==> e in Chain(b, t) {
    }
  }

  lemma GapAddsUp(a: set<Event>, b: set<Event>, key: Key)
    requires OneKey(a + b, key) && Apart(a, b)
    ensures Score(a + b) == Score(a) + Score(b)
  {
    StartsStay(a, b, key);
    forall s | s in Starts(a) ensures Chain(a + b, s) == Chain(a, s) {
      EarlierChainStays(a, b, key, s);
    }
    forall t | t in Starts(b) ensures Chain(a + b, t) == Chain(b, t) {
      LaterChainStays(a, b, key, t);
    }
    SumUnion(a + b, Starts(a), Starts(b));
    SumSame(a, a + b, Starts(a));
    SumSame(b, a + b, Starts(b));
  }

  /** A chain with a window before it and a window behind it is one of the whole. */
  lemma BlockIsChain(low: set<Event>, block: set<Event>, high: set<Event>, n: Start)
    requires NextChain(low, block, n) && OneKey(low + block + high, n.key) && Apart(low + block, high)
    ensures n in Starts(low + block + high) && Chain(low + block + high, n) == block
  {
    NextChainStarts(low, block, n);
    NewestChain(low, block, n);
    StartsStay(low + block, high, n.key);
    EarlierChainStays(low + block, high, n.key, n);
  }

  lemma TightScores(chain: set<Event>, n: Start)
    requires NextChain({}, chain, n)
    ensures Score(chain) == Highest(chain)
  {
    NextChainScores({}, chain, n);
    EmptyScore();
    assert {} + chain == chain;
  }

  lemma EmptyScore()
    ensures Score({}) == 0
  {
    assert Starts({}) == {};
  }

  /** A chain of a set, with what lies a window or more before it and behind it. */
  lemma AroundAChain(all: set<Event>, key: Key, s: Start) returns (low: set<Event>, high: set<Event>)
    requires OneKey(all, key) && s in Starts(all)
    ensures low + Chain(all, s) + high == all
    ensures Apart(low, Chain(all, s)) && Apart(low + Chain(all, s), high)
    ensures NextChain({}, Chain(all, s), s)
  {
    var chain := Chain(all, s);
    low := set f | f in all && f.at < s.at;
    high := all - low - chain;
    forall h | h in high ensures h.at >= s.at && forall e | e in low + chain :: h.at - e.at >= SCORE_WINDOW {
      var r :| r in all && s.at < r.at <= h.at && IsStart(all, key, r.at);
      forall e | e in low + chain ensures h.at - e.at >= SCORE_WINDOW {
        assert e.at < r.at;
      }
    }
    ChainIsTight(all, key, s);
  }

  lemma ChainIsTight(all: set<Event>, key: Key, s: Start)
    requires OneKey(all, key) && s in Starts(all)
    ensures NextChain({}, Chain(all, s), s)
  {
    var chain := Chain(all, s);
    var first :| first in all && s == Start(KeyOf(first), first.at);
    assert first in chain;
    forall e | e in chain ensures e.at == s.at || Follows(chain, e) {
      var t := InSomeChain(all, e);
      InOneChain(all, e, s, t);
    }
  }

  // --------------------------------------------------------------- one more event

  /** The last event of a key up to e and the next one: both near e, and too far from each other. */
  ghost predicate Bridges(events: set<Event>, e: Event, f: Event, g: Event) {
    && f in events && g in events && KeyOf(f) == KeyOf(e) && KeyOf(g) == KeyOf(e)
    && f.at <= e.at < g.at
    && (forall h | h in events && KeyOf(h) == KeyOf(e) :: h.at <= f.at || g.at <= h.at)
    && e.at - f.at < SCORE_WINDOW && g.at - e.at < SCORE_WINDOW && g.at - f.at >= SCORE_WINDOW
  }

  /** The chains it brings together. */
  ghost predicate Joins(events: set<Event>, e: Event, f: Event, g: Event, s: Start, t: Start) {
    && Bridges(events, e, f, g)
    && s in Starts(events) && f in Chain(events, s)
    && t in Starts(events) && g in Chain(events, t)
  }

  ghost function Peak(events: set<Event>, s: Start): int { Highest(Chain(events, s)) }

  lemma OneMoreHighest(events: set<Event>, e: Event)
    ensures Highest(events + {e}) == Max(Highest(events), e.xp)
  {
    HighestIs(events + {e}, Max(Highest(events), e.xp));
  }

  lemma HighestOfTwo(a: set<Event>, b: set<Event>)
    ensures Highest(a + b) == Max(Highest(a), Highest(b))
  {
    HighestIs(a + b, Max(Highest(a), Highest(b)));
  }

  /** The events of a chain at or before one of them, that one aside. */
  function UpTo(chain: set<Event>, e: Event): set<Event> { set f | f in chain - {e} && f.at <= e.at }

  function After(chain: set<Event>, e: Event): set<Event> { set f | f in chain && f.at > e.at }

  lemma {:induction false} Earliest(events: set<Event>) returns (e: Event)
    requires events != {}
    ensures e in events && forall f | f in events :: e.at <= f.at
  {
    e :| e in events;
    if events != {e} {
      var f := Earliest(events - {e});
      if f.at < e.at { e := f; }
    }
  }

  /** What is left of a chain before one of its events holds together. */
  lemma UpToIsTight(chain: set<Event>, e: Event, s: Start) returns (n: Start)
    requires NextChain({}, chain, s) && e in chain && UpTo(chain, e) != {}
    ensures n.key == s.key && NextChain({}, UpTo(chain, e), n)
  {
    var up := UpTo(chain, e);
    var first := Earliest(up);
    n := Start(s.key, first.at);
    forall f | f in up ensures KeyOf(f) == s.key && (f.at == n.at || Follows(up, f)) {
      assert f in {} + chain;
      if f.at != n.at {
        assert first in chain && s.at <= first.at;
        assert Follows(chain, f);
        var h :| h in chain && 0 < f.at - h.at < SCORE_WINDOW;
        assert h in up;
      }
    }
  }

  /** And so does what is left behind it. */
  lemma AfterIsTight(chain: set<Event>, e: Event, s: Start) returns (n: Start)
    requires NextChain({}, chain, s) && e in chain && After(chain, e) != {}
    ensures n.key == s.key && NextChain({}, After(chain, e), n)
    ensures n.at - e.at < SCORE_WINDOW || exists f :: f in UpTo(chain, e) && n.at - f.at < SCORE_WINDOW
  {
    var up, after := UpTo(chain, e), After(chain, e);
    var first := Earliest(after);
    n := Start(s.key, first.at);
    assert first in chain && s.at <= e.at;
    forall f | f in after ensures KeyOf(f) == s.key && (f.at == n.at || Follows(after, f)) {
      assert f in {} + chain && s.at <= e.at < f.at;
      if f.at != n.at {
        assert Follows(chain, f);
        var h :| h in chain && 0 < f.at - h.at < SCORE_WINDOW;
        assert (if h in after then h else first) in after;
        assert 0 < f.at - first.at;
        assert h !in after ==> f.at - first.at < SCORE_WINDOW;
      }
    }
    assert Follows(chain, first);
    var h :| h in chain && 0 < first.at - h.at < SCORE_WINDOW;
    assert h == e || h in up;
  }

  /** Without e its chain holds together, is gone, or falls into the part before it and the part behind. */
  lemma WithoutIt(chain: set<Event>, e: Event, s: Start)
    requires NextChain({}, chain, s) && e in chain
    ensures Score(chain - {e}) ==
      if UpTo(chain, e) != {} && After(chain, e) != {} && Apart(UpTo(chain, e), After(chain, e))
      then Highest(UpTo(chain, e)) + Highest(After(chain, e)) else Highest(chain - {e})
  {
    var up, after := UpTo(chain, e), After(chain, e);
    assert up + after == chain - {e};
    if chain == {e} {
      EmptyScore();
      assert chain - {e} == {};
    } else if after == {} {
      var n := UpToIsTight(chain, e, s);
      assert up == chain - {e};
      TightScores(up, n);
    } else if up == {} {
      var n := AfterIsTight(chain, e, s);
      assert after == chain - {e};
      TightScores(after, n);
    } else {
      var n := UpToIsTight(chain, e, s);
      var m := AfterIsTight(chain, e, s);
      if Apart(up, after) {
        GapAddsUp(up, after, s.key);
        TightScores(up, n);
        TightScores(after, m);
      } else {
        StillOne(up, after, n, m);
        TightScores(chain - {e}, n);
      }
    }
  }

  lemma StillOne(up: set<Event>, after: set<Event>, n: Start, m: Start)
    requires NextChain({}, up, n) && NextChain({}, after, m) && n.key == m.key && !Apart(up, after)
    requires forall f, g | f in up && g in after :: f.at < g.at
    ensures NextChain({}, up + after, n)
  {
    var all := up + after;
    var f, g :| f in up && g in after && g.at - f.at < SCORE_WINDOW;
    forall h | h in all ensures h.at == n.at || Follows(all, h) {
      if h in up {
        if h.at != n.at {
          assert Follows(up, h);
          var i :| i in up && 0 < h.at - i.at < SCORE_WINDOW;
          assert i in all;
        }
      } else if h.at == m.at {
        assert m.at <= g.at && f in all && 0 < h.at - f.at < SCORE_WINDOW;
      } else {
        assert Follows(after, h);
        var i :| i in after && 0 < h.at - i.at < SCORE_WINDOW;
        assert i in all;
      }
    }
    forall h | h in all ensures n.at <= h.at && KeyOf(h) == n.key {
      assert h in {} + up || h in {} + after;
      assert f in up && n.at <= f.at;
    }
  }

  ghost predicate Splits(chain: set<Event>, e: Event) {
    UpTo(chain, e) != {} && After(chain, e) != {} && Apart(UpTo(chain, e), After(chain, e))
  }

  /** The chain e is in, with what lies a window or more before it and behind it. */
  ghost predicate Around(events: set<Event>, e: Event, low: set<Event>, chain: set<Event>, high: set<Event>, s: Start) {
    && e !in events && e in chain && events == low + (chain - {e}) + high
    && s.key == KeyOf(e) && OneKey(events + {e}, s.key)
    && NextChain({}, chain, s) && Apart(low, chain) && Apart(low + chain, high)
  }

  lemma OneMore(events: set<Event>, e: Event) returns (low: set<Event>, chain: set<Event>, high: set<Event>, s: Start)
    requires e !in events && OneKey(events, KeyOf(e))
    ensures Around(events, e, low, chain, high, s)
  {
    var all := events + {e};
    s := InSomeChain(all, e);
    low, high := AroundAChain(all, KeyOf(e), s);
    chain := Chain(all, s);
    assert e !in low by { assert e in low ==> e.at - e.at >= SCORE_WINDOW; }
    assert e !in high by { assert e in high ==> e in low + chain && e.at - e.at >= SCORE_WINDOW; }
    assert events == low + (chain - {e}) + high;
  }

  lemma ScoresAround(events: set<Event>, e: Event, low: set<Event>, chain: set<Event>, high: set<Event>, s: Start)
    requires Around(events, e, low, chain, high, s)
    ensures Score(events + {e}) == Score(low) + Highest(chain) + Score(high)
    ensures Score(events) == Score(low) + Score(chain - {e}) + Score(high)
  {
    assert events + {e} == low + chain + high;
    GapAddsUp(low + chain, high, s.key);
    GapAddsUp(low, chain, s.key);
    TightScores(chain, s);
    GapAddsUp(low + (chain - {e}), high, s.key);
    GapAddsUp(low, chain - {e}, s.key);
  }

  lemma NearIsInChain(events: set<Event>, e: Event, low: set<Event>, chain: set<Event>, high: set<Event>, s: Start,
                       f: Event)
    requires Around(events, e, low, chain, high, s) && f in events
    requires -SCORE_WINDOW < f.at - e.at < SCORE_WINDOW
    ensures f in chain
  {
    assert f in low ==> e.at - f.at >= SCORE_WINDOW;
    assert f in high ==> e in low + chain && f.at - e.at >= SCORE_WINDOW;
  }

  lemma BridgeSplits(events: set<Event>, e: Event, low: set<Event>, chain: set<Event>, high: set<Event>, s: Start,
                     f: Event, g: Event)
    requires Around(events, e, low, chain, high, s) && Bridges(events, e, f, g)
    ensures f in UpTo(chain, e) && g in After(chain, e) && Splits(chain, e)
  {
    NearIsInChain(events, e, low, chain, high, s, f);
    NearIsInChain(events, e, low, chain, high, s, g);
    forall h, i | h in UpTo(chain, e) && i in After(chain, e) ensures i.at - h.at >= SCORE_WINDOW {
      assert h in events && i in events;
    }
  }

  lemma SplitBridges(events: set<Event>, e: Event, low: set<Event>, chain: set<Event>, high: set<Event>, s: Start)
    returns (f: Event, g: Event)
    requires Around(events, e, low, chain, high, s) && Splits(chain, e)
    ensures Bridges(events, e, f, g)
  {
    var up, after := UpTo(chain, e), After(chain, e);
    f := Latest(up);
    g := Earliest(after);
    var n := UpToIsTight(chain, e, s);
    var m := AfterIsTight(chain, e, s);
    assert g.at - f.at >= SCORE_WINDOW;
    assert e.at - f.at < SCORE_WINDOW by {
      if f.at < e.at {
        assert f in chain && s.at <= f.at && Follows(chain, e);
        var h :| h in chain && 0 < e.at - h.at < SCORE_WINDOW;
        assert h in up;
      }
    }
    forall h | h in events ensures h.at <= f.at || g.at <= h.at {
      if h in low {
        assert f in chain && f.at - h.at >= SCORE_WINDOW;
      } else if h in high {
        assert g in low + chain && h.at - g.at >= SCORE_WINDOW;
      } else {
        assert h in chain - {e} && (h in up || h in after);
      }
    }
  }

  /** The two parts are chains of the events without e. */
  lemma UpToIsChain(events: set<Event>, e: Event, low: set<Event>, chain: set<Event>, high: set<Event>, s: Start)
    returns (n: Start)
    requires Around(events, e, low, chain, high, s) && Splits(chain, e)
    ensures n in Starts(events) && Chain(events, n) == UpTo(chain, e)
  {
    var up, after := UpTo(chain, e), After(chain, e);
    n := UpToIsTight(chain, e, s);
    assert up + after == chain - {e};
    assert low + up + (after + high) == events;
    assert NextChain(low, up, n) by { StillNext(low, up, n); }
    assert Apart(low + up, after + high) by { ApartParts(low, chain, high, up, after); }
    BlockIsChain(low, up, after + high, n);
  }

  lemma AfterIsChain(events: set<Event>, e: Event, low: set<Event>, chain: set<Event>, high: set<Event>, s: Start)
    returns (n: Start)
    requires Around(events, e, low, chain, high, s) && Splits(chain, e)
    ensures n in Starts(events) && Chain(events, n) == After(chain, e)
  {
    var up, after := UpTo(chain, e), After(chain, e);
    n := AfterIsTight(chain, e, s);
    assert up + after == chain - {e};
    assert low + up + after + high == events;
    ApartParts(low, chain, high, up, after);
    assert NextChain(low + up, after, n) by { StillNext(low + up, after, n); }
    BlockIsChain(low + up, after, high, n);
  }

  lemma ApartParts(low: set<Event>, chain: set<Event>, high: set<Event>, up: set<Event>, after: set<Event>)
    requires up <= chain && after <= chain && Apart(low, chain) && Apart(low + chain, high) && Apart(up, after)
    ensures Apart(low + up, after + high) && Apart(low + up, after) && Apart(low + up + after, high) && Apart(low, up)
  {
    forall e, f | e in low + up && f in after + high ensures f.at - e.at >= SCORE_WINDOW {
      assert e in low + chain && (f in high || f in chain);
    }
    forall e, f | e in low + up + after && f in high ensures f.at - e.at >= SCORE_WINDOW {
      assert e in low + chain;
    }
  }

  lemma StillNext(low: set<Event>, block: set<Event>, n: Start)
    requires NextChain({}, block, n) && Apart(low, block) && OneKey(low, n.key)
    ensures NextChain(low, block, n)
  {
    assert {} + block == block;
    forall e | e in low + block ensures KeyOf(e) == n.key {
    }
  }

  /** An event that joins two chains of its key costs their peaks and brings the highest of the three. */
  lemma BridgeOfAKey(events: set<Event>, e: Event, f: Event, g: Event, p: Start, q: Start)
    requires OneKey(events, KeyOf(e)) && Joins(events, e, f, g, p, q)
    ensures Score(events + {e}) == Score(events) - Peak(events, p) - Peak(events, q)
                                   + Max(Max(Peak(events, p), Peak(events, q)), e.xp)
  {
    var low, chain, high, s := OneMore(events, e);
    BridgeSplits(events, e, low, chain, high, s, f, g);
    var n := UpToIsChain(events, e, low, chain, high, s);
    var m := AfterIsChain(events, e, low, chain, high, s);
    InOneChain(events, f, p, n);
    InOneChain(events, g, q, m);
    ScoresAround(events, e, low, chain, high, s);
    SplitScores(chain, e, s);
  }

  lemma SplitScores(chain: set<Event>, e: Event, s: Start)
    requires NextChain({}, chain, s) && e in chain && Splits(chain, e)
    ensures Score(chain - {e}) == Highest(UpTo(chain, e)) + Highest(After(chain, e))
    ensures Highest(chain) == Max(Max(Highest(UpTo(chain, e)), Highest(After(chain, e))), e.xp)
  {
    WithoutIt(chain, e, s);
    PartsOf(chain, e);
    HighestOfTwo(UpTo(chain, e), After(chain, e));
    OneMoreHighest(chain - {e}, e);
  }

  lemma PartsOf(chain: set<Event>, e: Event)
    requires e in chain
    ensures UpTo(chain, e) + After(chain, e) == chain - {e} && chain - {e} + {e} == chain
  {
  }

  lemma NoBridgeOfAKey(events: set<Event>, e: Event)
    requires OneKey(events, KeyOf(e)) && !exists f, g :: Bridges(events, e, f, g)
    ensures Score(events) <= Score(events + {e}) <= Score(events) + Max(e.xp, 0)
  {
    if e in events {
      assert events + {e} == events;
    } else {
      var low, chain, high, s := OneMore(events, e);
      ScoresAround(events, e, low, chain, high, s);
      if Splits(chain, e) {
        var f, g := SplitBridges(events, e, low, chain, high, s);
      }
      WithoutIt(chain, e, s);
      OneMoreHighest(chain - {e}, e);
      assert chain - {e} + {e} == chain;
    }
  }

  function Same(events: set<Event>, e: Event): set<Event> { set f | f in events && KeyOf(f) == KeyOf(e) }

  lemma OnlyItsKey(events: set<Event>, e: Event)
    ensures Score(events + {e}) - Score(events) == Score(Same(events, e) + {e}) - Score(Same(events, e))
    ensures forall s | s in Starts(events) && s.key == KeyOf(e) ::
      s in Starts(Same(events, e)) && Chain(Same(events, e), s) == Chain(events, s)
  {
    var same := Same(events, e);
    var others := events - same;
    KeysAddUp(same, others);
    KeysAddUp(same + {e}, others);
    StartsApart(same, others);
    assert same + others == events && (same + {e}) + others == events + {e};
    forall s | s in Starts(events) && s.key == KeyOf(e) ensures s in Starts(same) {
      var f :| f in events && IsStart(events, KeyOf(f), f.at) && s == Start(KeyOf(f), f.at);
      assert f in same && IsStart(same, KeyOf(f), f.at);
    }
  }

  /** An event that joins two chains costs their peaks and brings the highest of the three. */
  lemma BridgeScores(events: set<Event>, e: Event, f: Event, g: Event, s: Start, t: Start)
    requires Joins(events, e, f, g, s, t)
    ensures Score(events + {e}) == Score(events) - Peak(events, s) - Peak(events, t)
                                   + Max(Max(Peak(events, s), Peak(events, t)), e.xp)
  {
    OnlyItsKey(events, e);
    BridgeOfAKey(Same(events, e), e, f, g, s, t);
  }

  /** Any other event adds at least nothing and at most what it is worth. */
  lemma NoBridgeAdds(events: set<Event>, e: Event)
    requires !exists f, g :: Bridges(events, e, f, g)
    ensures Score(events) <= Score(events + {e}) <= Score(events) + Max(e.xp, 0)
  {
    OnlyItsKey(events, e);
    forall f, g ensures !Bridges(Same(events, e), e, f, g) {
      if Bridges(Same(events, e), e, f, g) {
        assert Bridges(events, e, f, g) by {
          forall h | h in events && KeyOf(h) == KeyOf(e) ensures h.at <= f.at || g.at <= h.at {
            assert h in Same(events, e);
          }
        }
      }
    }
    NoBridgeOfAKey(Same(events, e), e);
  }

  /**
  A new event lowers the score exactly when it joins two chains neither of which, nor the
  event itself, is worth as much as the two together.
  */
  lemma LowersIff(events: set<Event>, e: Event)
    ensures Score(events + {e}) < Score(events) <==>
      exists f, g, s, t :: Joins(events, e, f, g, s, t) &&
        Max(Max(Peak(events, s), Peak(events, t)), e.xp) < Peak(events, s) + Peak(events, t)
  {
    if f, g :| Bridges(events, e, f, g) {
      var s := InSomeChain(events, f);
      var t := InSomeChain(events, g);
      assert Joins(events, e, f, g, s, t);
      BridgeScores(events, e, f, g, s, t);
    } else {
      NoBridgeAdds(events, e);
    }
    forall f, g, s, t | Joins(events, e, f, g, s, t)
      ensures Score(events + {e}) == Score(events) - Peak(events, s) - Peak(events, t)
                                     + Max(Max(Peak(events, s), Peak(events, t)), e.xp)
    {
      BridgeScores(events, e, f, g, s, t);
    }
  }

  lemma LatestOpens(events: set<Event>, e: Event)
    requires forall f | f in events :: KeyOf(f) == KeyOf(e) && e.at - f.at >= SCORE_WINDOW
    requires e.xp >= 0
    ensures Score(events + {e}) == Score(events) + e.xp
  {
    NextChainScores(events, {e}, Start(KeyOf(e), e.at));
    HighestIs({e}, e.xp);
  }

  /**
  An event later than the others of its key adds at least nothing and at most what it is
  worth, and all of it when it comes a window or more after them.
  */
  lemma LatestAdds(events: set<Event>, e: Event)
    requires forall f | f in events && KeyOf(f) == KeyOf(e) :: f.at <= e.at
    requires e.xp >= 0
    ensures Score(events) <= Score(events + {e}) <= Score(events) + e.xp
    ensures (forall f | f in events && KeyOf(f) == KeyOf(e) :: e.at - f.at >= SCORE_WINDOW) ==>
              Score(events + {e}) == Score(events) + e.xp
  {
    NoBridgeAdds(events, e);
    if forall f | f in events && KeyOf(f) == KeyOf(e) :: e.at - f.at >= SCORE_WINDOW {
      OnlyItsKey(events, e);
      LatestOpens(Same(events, e), e);
    }
  }

  /** Between others an event can lower the score: three events of 3 XP score 3, without the middle one 6. */
  lemma ABridgeLowersTheScore(ref: Ref, kind: string) returns (a: Event, b: Event, bridge: Event)
    ensures Score({a, b} + {bridge}) < Score({a, b})
    ensures a == Event(ref, kind, 0, 3) && b == Event(ref, kind, 2 * 3600 * 1_000_000_000, 3)
    ensures bridge == Event(ref, kind, b.at - 1, 3)
  {
    a, b := Event(ref, kind, 0, 3), Event(ref, kind, SCORE_WINDOW, 3);
    bridge := Event(ref, kind, SCORE_WINDOW - 1, 3);
    PairBridged({a, b}, a, b, bridge);
  }

  lemma PairBridged(events: set<Event>, a: Event, b: Event, bridge: Event)
    requires a in events && b in events && forall e | e in events :: e == a || e == b
    requires Bridges(events, bridge, a, b) && a.xp == b.xp == bridge.xp == 3
    ensures Score(events + {bridge}) < Score(events)
  {
    var s := InSomeChain(events, a);
    var t := InSomeChain(events, b);
    HighestIs(Chain(events, s), 3);
    HighestIs(Chain(events, t), 3);
    BridgeScores(events, bridge, a, b, s, t);
  }

  /** Deleting a product's events takes exactly its own contribution away. */
  lemma DroppingARef(events: set<Event>, ref: Ref)
    ensures var own := set e | e in events && e.ref == ref;
      Score(events) == Score(own) + Score(events - own)
  {
    var own := set e | e in events && e.ref == ref;
    KeysAddUp(own, events - own);
    assert own + (events - own) == events;
  }

  // ------------------------------------------------------------------- the code

  function Elems(s: seq<Event>): set<Event> { set e | e in s }

  method MaxXP(events: seq<Event>) returns (highest: int)
    ensures highest == Highest(Elems(events))
  {
    highest := 0;
    for i := 0 to |events|
      invariant highest >= 0
      invariant forall j | 0 <= j < i :: events[j].xp <= highest
      invariant highest > 0 ==> exists j :: 0 <= j < i && events[j].xp == highest
    {
      if events[i].xp > highest {
        highest := events[i].xp;
      }
    }
    HighestIs(Elems(events), highest);
  }

  ghost predicate InTime(g: seq<Event>) { forall i, j | 0 <= i < j < |g| :: g[i].at <= g[j].at }

  /** A window or more since the event before. */
  predicate Gap(g: seq<Event>, j: int) { 0 < j < |g| && g[j].at - g[j - 1].at >= SCORE_WINDOW }

  /** No such gap among neighbours in time. */
  ghost predicate Tight(g: seq<Event>, from: nat, to: nat) {
    forall j | from < j < to :: !Gap(g, j)
  }

  lemma {:induction false} Predecessor(g: seq<Event>, from: nat, to: nat, k: nat) returns (m: nat)
    requires InTime(g) && Tight(g, from, to) && from < k < to <= |g| && g[k].at > g[from].at
    ensures from <= m < k && 0 < g[k].at - g[m].at < SCORE_WINDOW
  {
    if g[k - 1].at < g[k].at {
      assert !Gap(g, k);
      m := k - 1;
    } else {
      m := Predecessor(g, from, to, k - 1);
    }
  }

  lemma WindowIsTight(g: seq<Event>, from: nat, to: nat, e: Event)
    requires InTime(g) && from < to <= |g| && Tight(g, from, to) && e in g[from..to]
    ensures g[from].at <= e.at
    ensures e.at == g[from].at || Follows(Elems(g[from..to]), e)
  {
    var k :| 0 <= k < to - from && g[from..to][k] == e;
    if g[from + k].at > g[from].at {
      var m := Predecessor(g, from, to, from + k);
      assert g[m] == g[from..to][m - from];
    }
  }

  lemma GapBefore(g: seq<Event>, from: nat, to: nat, e: Event, f: Event)
    requires InTime(g) && from < to <= |g| && e in g[..from] && f in g[from..to]
    requires from > 0 ==> Gap(g, from)
    ensures f.at - e.at >= SCORE_WINDOW
  {
    assert e.at <= g[from - 1].at;
    assert g[from].at <= f.at;
  }

  lemma WindowIsNextChain(g: seq<Event>, key: Key, from: nat, to: nat)
    requires InTime(g) && from < to <= |g| && Tight(g, from, to)
    requires forall i | 0 <= i < |g| :: KeyOf(g[i]) == key
    requires from > 0 ==> Gap(g, from)
    ensures NextChain(Elems(g[..from]), Elems(g[from..to]), Start(key, g[from].at))
  {
    var before, chain, n := Elems(g[..from]), Elems(g[from..to]), Start(key, g[from].at);
    assert g[from] == g[from..to][0];
    forall e | e in chain
      ensures n.at <= e.at
      ensures e.at == n.at || Follows(chain, e)
    {
      WindowIsTight(g, from, to, e);
    }
    assert Apart(before, chain) by {
      forall e, f | e in before && f in chain ensures f.at - e.at >= SCORE_WINDOW {
        GapBefore(g, from, to, e, f);
      }
    }
    assert OneKey(before + chain, key);
  }

  lemma ElemsSplit(g: seq<Event>, from: nat, to: nat)
    requires from <= to <= |g|
    ensures Elems(g[..to]) == Elems(g[..from]) + Elems(g[from..to])
  {
    assert g[..to] == g[..from] + g[from..to];
  }

  lemma WindowScores(g: seq<Event>, key: Key, from: nat, to: nat)
    requires InTime(g) && from < to <= |g| && Tight(g, from, to)
    requires forall i | 0 <= i < |g| :: KeyOf(g[i]) == key
    requires from > 0 ==> Gap(g, from)
    ensures ScoreUpTo(g, to) == ScoreUpTo(g, from) + Highest(Elems(g[from..to]))
  {
    WindowIsNextChain(g, key, from, to);
    ElemsSplit(g, from, to);
    NextChainScores(Elems(g[..from]), Elems(g[from..to]), Start(key, g[from].at));
  }

  ghost function ScoreUpTo(g: seq<Event>, n: nat): int
    requires n <= |g|
  {
    Score(Elems(g[..n]))
  }

  lemma SameElems(g: seq<Event>, h: seq<Event>)
    requires multiset(g) == multiset(h)
    ensures Elems(g) == Elems(h) && |g| == |h|
  {
    assert forall e :: e in g <==> e in multiset(g);
    assert forall e :: e in h <==> e in multiset(h);
    assert |g| == |multiset(g)| && |h| == |multiset(h)|;
  }

  lemma NoneAndAll(g: seq<Event>)
    ensures ScoreUpTo(g, 0) == 0 && ScoreUpTo(g, |g|) == Score(Elems(g))
  {
    EmptyScore();
    assert Elems(g[..0]) == {};
    assert g[..|g|] == g;
  }

  /** A window adds the most one of its events is worth to what the events before it score. */
  ghost predicate WindowAdds(g: seq<Event>, scores: seq<int>, from: nat, to: nat)
    requires |scores| == |g| + 1
  {
    from < to <= |g| && Tight(g, from, to) && (from > 0 ==> Gap(g, from)) ==>
      scores[to] == scores[from] + Highest(Elems(g[from..to]))
  }

  /** Closes a window wherever time jumps by a window or more, and at the end. */
  method SumWindows(g: seq<Event>, ghost scores: seq<int>) returns (total: int)
    requires g != [] && |scores| == |g| + 1 && scores[0] == 0
    requires forall from: nat, to: nat :: WindowAdds(g, scores, from, to)
    ensures total == scores[|g|]
  {
    total := 0;
    var windowStart := 0;
    for i := 1 to |g| + 1
      invariant windowStart < i && (if i == |g| + 1 then windowStart == |g| else windowStart < |g|)
      invariant total == scores[windowStart]
      invariant 0 < windowStart < |g| ==> Gap(g, windowStart)
      invariant Tight(g, windowStart, i)
    {
      if i == |g| || g[i].at - g[i - 1].at >= SCORE_WINDOW {
        assert WindowAdds(g, scores, windowStart, i);
        var most := MaxXP(g[windowStart..i]);
        total := total + most;
        windowStart := i;
      }
    }
  }

  lemma WindowsAdd(g: seq<Event>, key: Key) returns (scores: seq<int>)
    requires InTime(g) && forall e | e in Elems(g) :: KeyOf(e) == key
    ensures |scores| == |g| + 1 && scores[0] == 0 && scores[|g|] == Score(Elems(g))
    ensures forall from: nat, to: nat :: WindowAdds(g, scores, from, to)
  {
    scores := seq(|g| + 1, n requires 0 <= n <= |g| => ScoreUpTo(g, n));
    NoneAndAll(g);
    forall from: nat, to: nat ensures WindowAdds(g, scores, from, to) {
      assert forall i | 0 <= i < |g| :: g[i] in Elems(g);
      if from < to <= |g| && Tight(g, from, to) && (from > 0 ==> Gap(g, from)) {
        WindowScores(g, key, from, to);
      }
    }
  }

  /** One group: sorted by time, then a window at a time. */
  method ScoreGroup(group: seq<Event>, key: Key) returns (total: int)
    requires group != [] && forall e | e in group :: KeyOf(e) == key
    ensures total == Score(Elems(group))
  {
    var g := SortBy(group, (e: Event) => e.at);
    SameElems(g, group);
    ghost var scores := WindowsAdd(g, key);
    total := SumWindows(g, scores);
  }

  /** The result adds up the chains of the events, whatever order they came in. */
  method Coalesce(events: seq<Event>) returns (total: int)
    ensures total == Score(Elems(events))
  {
    var groups: map<Key, seq<Event>> := map[];
    for i := 0 to |events|
      invariant forall k | k in groups :: groups[k] != []
      invariant forall k | k in groups :: forall e :: e in groups[k] <==> e in events[..i] && KeyOf(e) == k
      invariant forall e | e in events[..i] :: KeyOf(e) in groups
    {
      var e := events[i];
      var k := KeyOf(e);
      assert events[..i + 1] == events[..i] + [e];
      groups := groups[k := (if k in groups then groups[k] else []) + [e]];
    }
    assert events[..|events|] == events;
    total := 0;
    var keys := groups.Keys;
    ghost var scored: set<Event> := {};
    EmptyScore();
    while keys != {}
      invariant keys <= groups.Keys
      invariant forall e :: e in scored <==> e in events && KeyOf(e) !in keys
      invariant total == Score(scored)
    {
      var k :| k in keys;
      var score := ScoreGroup(groups[k], k);
      KeysAddUp(scored, Elems(groups[k]));
      scored := scored + Elems(groups[k]);
      total := total + score;
      keys := keys - {k};
    }
    assert scored == Elems(events);
  }
}
