/** The timer scheduler of src/unix/timer.c and the timer step of the loop in src/unix/engine.c. */
module Timers {
  import opened Options

  const TIMER_MAXIMUM: nat := 4

  class Timer {
    const seconds: nat
    const microseconds: nat
    var timeout: int

    constructor (seconds: nat, microseconds: nat)
      ensures this.seconds == seconds && this.microseconds == microseconds
    {
      this.seconds, this.microseconds, timeout := seconds, microseconds, 0;
    }

    function Period(): nat {
      seconds * 1000000 + microseconds
    }
  }

  // ---------------------------------------------------------------- the timers as a sequence

  datatype Entry = Entry(timer: Timer, timeout: int)

  type Schedule = seq<Entry>

  ghost predicate DistinctTimers(s: Schedule) {
    forall i, j :: 0 <= i < j < |s| ==> s[i].timer != s[j].timer
  }

  /** Entry `i` fires before entry `k`: it is due earlier, or at the same time and stands earlier. */
  predicate Before(s: Schedule, i: nat, k: nat)
    requires i < |s| && k < |s|
  {
    s[i].timeout < s[k].timeout || (s[i].timeout == s[k].timeout && i < k)
  }

  /** Entry `i` is the first of those with the least timeout. */
  predicate IsFirst(s: Schedule, i: nat) {
    i < |s| && forall k :: 0 <= k < |s| && k != i ==> Before(s, i, k)
  }

  /** There is exactly one such entry. */
  lemma FirstUnique(s: Schedule, i: nat, j: nat)
    requires IsFirst(s, i) && IsFirst(s, j)
    ensures i == j
  {
    assert !(Before(s, i, j) && Before(s, j, i));
  }

  function IndexOf(s: Schedule, t: Timer): (i: nat)
    ensures i <= |s| && (i < |s| ==> s[i].timer == t)
    ensures forall k :: 0 <= k < i ==> s[k].timer != t
  {
    if s == [] || s[0].timer == t then 0 else 1 + IndexOf(s[1..], t)
  }

  /** aiko_timer_update: a timer that is not active is ignored. */
  function Updated(s: Schedule, t: Timer, now: int): Schedule {
    var i := IndexOf(s, t);
    if i == |s| then s else s[i := Entry(t, now + t.Period())]
  }

  /** aiko_delete_timer: the others keep their order. */
  function Deleted(s: Schedule, t: Timer): Schedule {
    var i := IndexOf(s, t);
    if i == |s| then s else s[..i] + s[i + 1..]
  }

  /** aiko_add_timer. */
  function Added(s: Schedule, t: Timer, now: int): Schedule {
    s + [Entry(t, now + t.Period())]
  }

  lemma FirstExtends(s: Schedule, i: nat)
    requires |s| > 1 && IsFirst(s[..|s| - 1], i)
    ensures IsFirst(s, if s[|s| - 1].timeout < s[i].timeout then |s| - 1 else i)
  {
    var last := |s| - 1;
    var first := if s[last].timeout < s[i].timeout then last else i;
    forall k | 0 <= k < |s| && k != first ensures Before(s, first, k) {
      if k < last && k != i {
        assert s[..last][k] == s[k] && Before(s[..last], i, k);
      }
    }
  }

  /** The entry to fire next. */
  function First(s: Schedule): (i: nat)
    requires s != []
    ensures IsFirst(s, i)
  {
    var last := |s| - 1;
    if last == 0 then 0 else
      var i := First(s[..last]);
      FirstExtends(s, i);
      if s[last].timeout < s[i].timeout then last else i
  }

  // ---------------------------------------------------------------- the timer step of the loop

  /** What a handler can do to the table: add a timer that is not yet there, delete one, restart one. */
  datatype Change = Insert(timer: Timer, now: int) | Remove(timer: Timer) | Restart(timer: Timer, now: int)

  function Changed(s: Schedule, c: Change): Schedule {
    match c
    case Insert(t, now) => Added(s, t, now)
    case Remove(t) => Deleted(s, t)
    case Restart(t, now) => Updated(s, t, now)
  }

  function ChangedBy(s: Schedule, changes: seq<Change>): Schedule
    decreases |changes|
  {
    if changes == [] then s else ChangedBy(Changed(s, changes[0]), changes[1..])
  }

  lemma {:induction false} ChangedBySnoc(s: Schedule, changes: seq<Change>, c: Change)
    ensures ChangedBy(s, changes + [c]) == Changed(ChangedBy(s, changes), c)
    decreases |changes|
  {
    if changes != [] {
      ChangedBySnoc(Changed(s, changes[0]), changes[1..], c);
      assert (changes + [c])[1..] == changes[1..] + [c];
    } else {
      assert (changes + [c])[1..] == [];
    }
  }

  /** One turn of the loop: the clock it reads, what the handler does if one is called, and the
      clock read when the fired timer is restarted. */
  datatype Turn = Turn(now: int, changes: seq<Change>, after: int)

  /** The timer fired by a turn that starts in `s`. */
  function Fired(s: Schedule, turn: Turn): Option<Timer> {
    if s != [] && s[First(s)].timeout <= turn.now then Some(s[First(s)].timer) else None
  }

  function Turned(s: Schedule, turn: Turn): Schedule {
    match Fired(s, turn)
    case None => s
    case Some(t) => Updated(ChangedBy(s, turn.changes), t, turn.after)
  }

  function RunTurns(s: Schedule, turns: seq<Turn>): Schedule
    decreases |turns|
  {
    if turns == [] then s else RunTurns(Turned(s, turns[0]), turns[1..])
  }

  // ---------------------------------------------------------------- bounded waiting

  ghost predicate Active(s: Schedule, x: Timer) {
    IndexOf(s, x) < |s|
  }

  /** The timers that fire before `x`. */
  ghost function Ahead(s: Schedule, x: Timer): set<Timer>
    requires Active(s, x)
  {
    set i: nat | i < |s| && Before(s, i, IndexOf(s, x)) :: s[i].timer
  }

  /** `x` is active and due, every timer is there once, and every period is positive. */
  ghost predicate Waiting(s: Schedule, x: Timer, now: int) {
    && DistinctTimers(s) && Active(s, x) && s[IndexOf(s, x)].timeout <= now
    && forall i :: 0 <= i < |s| ==> s[i].timer.Period() > 0
  }

  /** A handler's change that leaves `x` alone, with a clock not before `now`. */
  ghost predicate Spares(s: Schedule, c: Change, x: Timer, now: int) {
    match c
    case Insert(t, when) => !Active(s, t) && t.Period() > 0 && when >= now
    case Remove(t) => t != x
    case Restart(t, when) => t != x && when >= now
  }

  ghost predicate AllSpare(s: Schedule, changes: seq<Change>, x: Timer, now: int)
    decreases |changes|
  {
    changes == [] || (Spares(s, changes[0], x, now) && AllSpare(Changed(s, changes[0]), changes[1..], x, now))
  }

  /** The clock never goes back over the turns, and a handler called for another timer than `x`
      leaves `x` alone. */
  ghost predicate Fair(s: Schedule, turns: seq<Turn>, x: Timer, now: int)
    decreases |turns|
  {
    turns == [] ||
    (var turn := turns[0];
     && now <= turn.now <= turn.after
     && (Fired(s, turn) != Some(x) ==> AllSpare(s, turn.changes, x, turn.now))
     && Fair(Turned(s, turn), turns[1..], x, turn.now))
  }

  /** Turn number `n` fires `x`. */
  ghost predicate FiredAt(s: Schedule, turns: seq<Turn>, n: nat, x: Timer) {
    n < |turns| && Fired(RunTurns(s, turns[..n]), turns[n]) == Some(x)
  }

  /** The timer that turn number `n` fires. */
  ghost function FiredBy(s: Schedule, turns: seq<Turn>, n: nat): Timer?
    requires n < |turns|
  {
    match Fired(RunTurns(s, turns[..n]), turns[n])
    case None => null
    case Some(t) => t
  }

  /** A timer `x` that is due and left alone is fired once all those ahead of it could have been. */
  ghost predicate FiredInTime(s: Schedule, turns: seq<Turn>, fired: seq<Timer?>, x: Timer, now: int)
    requires |fired| == |turns|
  {
    Waiting(s, x, now) && Fair(s, turns, x, now) && |turns| > |Ahead(s, x)| ==>
      exists n: nat :: n <= |Ahead(s, x)| && FiredAt(s, turns, n, x) && fired[n] == x
  }

  lemma FollowsOn(s: Schedule, turns: seq<Turn>, turn: Turn)
    ensures RunTurns(s, turns + [turn]) == Turned(RunTurns(s, turns), turn)
    ensures forall n :: 0 <= n < |turns| ==>
              FiredBy(s, turns + [turn], n) == FiredBy(s, turns, n) && (turns + [turn])[..n] == turns[..n]
    ensures (turns + [turn])[..|turns|] == turns
    ensures FiredBy(s, turns + [turn], |turns|) ==
            (match Fired(RunTurns(s, turns), turn) case None => null case Some(t) => t)
  {
    RunTurnsSnoc(s, turns, turn);
    forall n | 0 <= n < |turns|
      ensures FiredBy(s, turns + [turn], n) == FiredBy(s, turns, n) && (turns + [turn])[..n] == turns[..n]
    {
      assert (turns + [turn])[..n] == turns[..n];
    }
    assert (turns + [turn])[..|turns|] == turns;
  }

  lemma NoTurns(s: Schedule)
    ensures RunTurns(s, []) == s
  {
  }

  lemma {:induction false} RunTurnsSnoc(s: Schedule, turns: seq<Turn>, turn: Turn)
    ensures RunTurns(s, turns + [turn]) == Turned(RunTurns(s, turns), turn)
    decreases |turns|
  {
    if turns != [] {
      RunTurnsSnoc(Turned(s, turns[0]), turns[1..], turn);
      assert (turns + [turn])[1..] == turns[1..] + [turn];
    } else {
      assert (turns + [turn])[1..] == [];
    }
  }

  lemma IndexOfIs(s: Schedule, i: nat)
    requires DistinctTimers(s) && i < |s|
    ensures IndexOf(s, s[i].timer) == i
  {
  }

  lemma InAhead(s: Schedule, x: Timer, y: Timer)
    requires DistinctTimers(s) && Active(s, x)
    ensures y in Ahead(s, x) <==> Active(s, y) && Before(s, IndexOf(s, y), IndexOf(s, x))
  {
    if y in Ahead(s, x) {
      var i: nat :| i < |s| && Before(s, i, IndexOf(s, x)) && s[i].timer == y;
      IndexOfIs(s, i);
    }
  }

  lemma UpdatedIndex(s: Schedule, t: Timer, when: int, y: Timer)
    requires DistinctTimers(s)
    ensures var r := Updated(s, t, when);
      && |r| == |s| && DistinctTimers(r) && IndexOf(r, y) == IndexOf(s, y)
      && forall k :: 0 <= k < |s| ==> r[k].timer == s[k].timer && (k != IndexOf(s, t) ==> r[k] == s[k])
  {
    var r, k := Updated(s, t, when), IndexOf(s, y);
    if k < |s| {
      assert r[k].timer == y;
      IndexOfIs(r, k);
    }
  }

  lemma UpdatedSpares(s: Schedule, t: Timer, when: int, x: Timer, now: int)
    requires Waiting(s, x, now) && t != x && now <= when
    ensures Waiting(Updated(s, t, when), x, now) && Ahead(Updated(s, t, when), x) == Ahead(s, x) - {t}
  {
    var r := Updated(s, t, when);
    UpdatedIndex(s, t, when, x);
    forall y: Timer ensures y in Ahead(r, x) <==> y in Ahead(s, x) && y != t {
      hide Ahead;
      InAhead(s, x, y);
      InAhead(r, x, y);
      UpdatedIndex(s, t, when, y);
    }
  }

  /** Where entry `k` of the shorter table was before. */
  function Was(s: Schedule, t: Timer, k: nat): nat {
    if k < IndexOf(s, t) then k else k + 1
  }

  lemma DeletedEntries(s: Schedule, t: Timer)
    requires DistinctTimers(s) && Active(s, t)
    ensures var r := Deleted(s, t);
            && |r| == |s| - 1 && DistinctTimers(r)
            && forall k :: 0 <= k < |r| ==> r[k] == s[Was(s, t, k)] && r[k].timer != t
  {
    var i, r := IndexOf(s, t), Deleted(s, t);
    assert forall k :: 0 <= k < |r| ==> r[k] == s[if k < i then k else k + 1];
  }

  lemma DeletedIndex(s: Schedule, t: Timer, y: Timer)
    requires DistinctTimers(s) && y != t
    ensures var r, k := Deleted(s, t), IndexOf(s, y);
      && DistinctTimers(r) && !Active(r, t) && (Active(r, y) <==> Active(s, y))
      && (Active(s, y) ==> IndexOf(r, y) == (if k < IndexOf(s, t) then k else k - 1) && r[IndexOf(r, y)] == s[k])
  {
    if Active(s, t) {
      var r, i, k := Deleted(s, t), IndexOf(s, t), IndexOf(s, y);
      DeletedEntries(s, t);
      hide Deleted, IndexOf;
      if k < |s| {
        var j := if k < i then k else k - 1;
        assert r[j] == s[Was(s, t, j)];
        IndexOfIs(r, j);
      }
    }
  }

  lemma DeletedSpares(s: Schedule, t: Timer, x: Timer, now: int)
    requires Waiting(s, x, now) && t != x
    ensures Waiting(Deleted(s, t), x, now) && Ahead(Deleted(s, t), x) == Ahead(s, x) - {t}
  {
    var r := Deleted(s, t);
    DeletedIndex(s, t, x);
    forall y: Timer ensures y in Ahead(r, x) <==> y in Ahead(s, x) && y != t {
      InAhead(s, x, y);
      InAhead(r, x, y);
      if y != t {
        DeletedIndex(s, t, y);
      }
    }
    forall k | 0 <= k < |r| ensures r[k].timer.Period() > 0 {
      IndexOfIs(r, k);
      assert Active(r, r[k].timer);
      DeletedIndex(s, t, r[k].timer);
    }
  }

  lemma AddedSpares(s: Schedule, t: Timer, when: int, x: Timer, now: int)
    requires Waiting(s, x, now) && !Active(s, t) && t.Period() > 0 && now <= when
    ensures Waiting(Added(s, t, when), x, now) && Ahead(Added(s, t, when), x) == Ahead(s, x)
  {
    var r, at := Added(s, t, when), IndexOf(s, x);
    IndexOfIs(r, at);
    forall y ensures y in Ahead(r, x) <==> y in Ahead(s, x) {
      if y in Ahead(r, x) {
        var k: nat :| k < |r| && Before(r, k, at) && r[k].timer == y;
        assert Before(s, k, at) && s[k].timer == y;
      }
      if y in Ahead(s, x) {
        var k: nat :| k < |s| && Before(s, k, at) && s[k].timer == y;
        assert Before(r, k, at) && r[k].timer == y;
      }
    }
  }

  /** Handlers that leave `x` alone put nothing ahead of it. */
  lemma {:induction false} HandlersSpare(s: Schedule, changes: seq<Change>, x: Timer, now: int)
    requires Waiting(s, x, now) && AllSpare(s, changes, x, now)
    ensures Waiting(ChangedBy(s, changes), x, now) && Ahead(ChangedBy(s, changes), x) <= Ahead(s, x)
    decreases |changes|
  {
    if changes != [] {
      match changes[0] {
        case Insert(t, when) => AddedSpares(s, t, when, x, now);
        case Remove(t) => DeletedSpares(s, t, x, now);
        case Restart(t, when) => UpdatedSpares(s, t, when, x, now);
      }
      HandlersSpare(Changed(s, changes[0]), changes[1..], x, now);
    }
  }

  /** A turn that does not fire a due timer takes one of the timers ahead of it away. */
  lemma TurnBringsNearer(s: Schedule, turn: Turn, x: Timer)
    requires Waiting(s, x, turn.now) && turn.now <= turn.after
    requires Fired(s, turn) != Some(x) && AllSpare(s, turn.changes, x, turn.now)
    ensures Waiting(Turned(s, turn), x, turn.now) && Ahead(Turned(s, turn), x) < Ahead(s, x)
  {
    var first, at := First(s), IndexOf(s, x);
    assert first != at && Before(s, first, at);
    var y := s[first].timer;
    assert y in Ahead(s, x);
    HandlersSpare(s, turn.changes, x, turn.now);
    UpdatedSpares(ChangedBy(s, turn.changes), y, turn.after, x, turn.now);
  }

  /** A due timer fires after at most as many turns as there are timers ahead of it, whatever the
      handlers of those do to the rest of the table. */
  lemma {:induction false} BoundedWaiting(s: Schedule, turns: seq<Turn>, x: Timer, now: int)
    requires Waiting(s, x, now) && Fair(s, turns, x, now) && |turns| > |Ahead(s, x)|
    ensures exists n: nat :: n <= |Ahead(s, x)| && FiredAt(s, turns, n, x)
    decreases |turns|
  {
    hide AllSpare, Turned, Before, Updated;
    var turn := turns[0];
    if Fired(s, turn) == Some(x) {
      assert FiredAt(s, turns, 0, x);
    } else {
      TurnBringsNearer(s, turn, x);
      var next := Turned(s, turn);
      SubsetSize(Ahead(next, x), Ahead(s, x));
      BoundedWaiting(next, turns[1..], x, turn.now);
      var n: nat :| n <= |Ahead(next, x)| && FiredAt(next, turns[1..], n, x);
      assert turns[..n + 1][1..] == turns[1..][..n];
      assert FiredAt(s, turns, n + 1, x);
    }
  }

  lemma {:induction false} SubsetSize<T>(a: set<T>, b: set<T>)
    requires a < b
    ensures |a| < |b|
  {
    if a != {} {
      var x :| x in a;
      SubsetSize(a - {x}, b - {x});
    }
  }

  /** At most three others can be ahead. */
  lemma AheadAtMost(s: Schedule, x: Timer)
    requires DistinctTimers(s) && Active(s, x)
    ensures |Ahead(s, x)| < |s|
  {
    var all := set i: nat | i < |s| :: s[i].timer;
    assert Ahead(s, x) < all by {
      assert s[IndexOf(s, x)].timer in all;
      assert x !in Ahead(s, x);
    }
    SubsetSize(Ahead(s, x), all);
    AllSize(s);
  }

  lemma {:induction false} AllSize(s: Schedule)
    ensures |set i: nat | i < |s| :: s[i].timer| <= |s|
  {
    if s != [] {
      var n := |s| - 1;
      AllSize(s[..n]);
      assert (set i: nat | i < |s| :: s[i].timer) == (set i: nat | i < n :: s[..n][i].timer) + {s[n].timer};
    }
  }

  /** The positive periods are needed: a timer with period 0 keeps a due one waiting for ever while
      the clock stands still. */
  lemma {:induction false} ZeroPeriodStarves(y: Timer, x: Timer, now: int, n: nat)
    requires x != y && y.Period() == 0
    ensures var s := [Entry(y, now), Entry(x, now)];
      var turns := seq(n, _ => Turn(now, [], now));
      RunTurns(s, turns) == s && Fired(s, Turn(now, [], now)) == Some(y)
  {
    var s, turn := [Entry(y, now), Entry(x, now)], Turn(now, [], now);
    FirstUnique(s, First(s), 0);
    assert Turned(s, turn) == s;
    if n > 0 {
      ZeroPeriodStarves(y, x, now, n - 1);
      assert seq(n, _ => turn)[1..] == seq(n - 1, _ => turn);
    }
  }

  // ---------------------------------------------------------------- when a timer fires

  /** The cached timer: no other is due earlier, and none that stands before it is due at the same time. */
  lemma FirstIsEarliest(s: Schedule)
    requires s != []
    ensures forall k :: 0 <= k < |s| ==> s[First(s)].timeout <= s[k].timeout
    ensures forall k :: 0 <= k < First(s) ==> s[First(s)].timeout < s[k].timeout
  {
    forall k | 0 <= k < |s| && k != First(s)
      ensures s[First(s)].timeout <= s[k].timeout && (k < First(s) ==> s[First(s)].timeout < s[k].timeout)
    {
      assert Before(s, First(s), k);
    }
  }

  /** A turn fires a timer exactly if one is due, and then the earliest. */
  lemma FiresWhenDue(s: Schedule, turn: Turn)
    ensures Fired(s, turn) == None <==> forall k :: 0 <= k < |s| ==> turn.now < s[k].timeout
    ensures Fired(s, turn) != None ==> s != [] && Fired(s, turn) == Some(s[First(s)].timer)
  {
    if s != [] {
      FirstIsEarliest(s);
    }
  }

  /** A timer that is added or restarted is due a period after that, to the microsecond. */
  lemma DueAfterPeriod(s: Schedule, t: Timer, now: int)
    ensures var due := Entry(t, now + t.seconds * 1000000 + t.microseconds);
      && Added(s, t, now) == s + [due]
      && (Active(s, t) ==> Updated(s, t, now) == s[IndexOf(s, t) := due])
      && (!Active(s, t) ==> Updated(s, t, now) == s)
  {
  }

  /** Timer `x` is active and due at `due`. */
  ghost predicate DueAt(s: Schedule, x: Timer, due: int) {
    DistinctTimers(s) && Active(s, x) && s[IndexOf(s, x)].timeout == due
  }

  /** The changes are none to `x`. */
  ghost predicate LeftAlone(s: Schedule, changes: seq<Change>, x: Timer)
    decreases |changes|
  {
    changes == [] ||
    (&& (if changes[0].Insert? then !Active(s, changes[0].timer) else changes[0].timer != x)
     && LeftAlone(Changed(s, changes[0]), changes[1..], x))
  }

  lemma ChangeLeaves(s: Schedule, c: Change, x: Timer, due: int)
    requires DueAt(s, x, due) && if c.Insert? then !Active(s, c.timer) else c.timer != x
    ensures DueAt(Changed(s, c), x, due)
  {
    match c {
      case Insert(t, now) => IndexOfIs(Added(s, t, now), IndexOf(s, x));
      case Remove(t) => DeletedIndex(s, t, x);
      case Restart(t, now) => UpdatedIndex(s, t, now, x);
    }
  }

  lemma {:induction false} ChangesLeave(s: Schedule, changes: seq<Change>, x: Timer, due: int)
    requires DueAt(s, x, due) && LeftAlone(s, changes, x)
    ensures DueAt(ChangedBy(s, changes), x, due)
    decreases |changes|
  {
    if changes != [] {
      ChangeLeaves(s, changes[0], x, due);
      ChangesLeave(Changed(s, changes[0]), changes[1..], x, due);
    }
  }

  /** All turns begin before `due`, and the handlers called in them leave `x` alone. */
  ghost predicate Earlier(s: Schedule, turns: seq<Turn>, x: Timer, due: int)
    decreases |turns|
  {
    turns == [] ||
    (&& turns[0].now < due
     && (Fired(s, turns[0]) != None ==> LeftAlone(s, turns[0].changes, x))
     && Earlier(Turned(s, turns[0]), turns[1..], x, due))
  }

  /** No timer fires before it is due. */
  lemma {:induction false} NotEarly(s: Schedule, turns: seq<Turn>, x: Timer, due: int, n: nat)
    requires DueAt(s, x, due) && Earlier(s, turns, x, due) && n < |turns|
    ensures !FiredAt(s, turns, n, x)
    decreases |turns|
  {
    var turn := turns[0];
    FiresWhenDue(s, turn);
    if Fired(s, turn) != None {
      FirstIsEarliest(s);
      var y := s[First(s)].timer;
      assert y != x by {
        IndexOfIs(s, First(s));
      }
      ChangesLeave(s, turn.changes, x, due);
      ChangeLeaves(ChangedBy(s, turn.changes), Restart(y, turn.after), x, due);
    }
    if n > 0 {
      assert turns[..n][1..] == turns[1..][..n - 1];
      NotEarly(Turned(s, turn), turns[1..], x, due, n - 1);
    } else {
      assert turns[..0] == [];
    }
  }

  /** A timer that has fired does not fire again before a period has passed since it was restarted. */
  lemma FiringsApart(s: Schedule, turn: Turn, later: seq<Turn>, x: Timer, n: nat)
    requires DistinctTimers(s) && Fired(s, turn) == Some(x) && LeftAlone(s, turn.changes, x) && n < |later|
    requires Earlier(Turned(s, turn), later, x, turn.after + x.seconds * 1000000 + x.microseconds)
    ensures !FiredAt(Turned(s, turn), later, n, x)
  {
    FiresWhenDue(s, turn);
    IndexOfIs(s, First(s));
    ChangesLeave(s, turn.changes, x, s[First(s)].timeout);
    var t := ChangedBy(s, turn.changes);
    UpdatedIndex(t, x, turn.after, x);
    DueAfterPeriod(t, x, turn.after);
    NotEarly(Turned(s, turn), later, x, turn.after + x.seconds * 1000000 + x.microseconds, n);
  }

  // ---------------------------------------------------------------- the table itself

  /** The timer calls of a handler, which is foreign code. An active timer is named by its place. */
  datatype Command =
    | AddTimer(seconds: nat, microseconds: nat, now: int)
    | DeleteTimer(slot: nat)
    | UpdateTimer(slot: nat, now: int)

  /** The command changes the table at all: there is room, or the place holds a timer. */
  predicate Effective(s: Schedule, command: Command) {
    if command.AddTimer? then |s| < TIMER_MAXIMUM else command.slot < |s|
  }

  ghost predicate Does(s: Schedule, command: Command, c: Change)
    requires Effective(s, command)
  {
    match command
    case AddTimer(seconds, microseconds, now) =>
      c.Insert? && c.now == now && !Active(s, c.timer) && c.timer.Period() == seconds * 1000000 + microseconds
    case DeleteTimer(slot) => c == Remove(s[slot].timer)
    case UpdateTimer(slot, now) => c == Restart(s[slot].timer, now)
  }

  /** `changes` is what the commands do from `s`. The handler stops at an add to a full table, where
      the source's assertion ends the program. */
  ghost predicate Ran(s: Schedule, script: seq<Command>, changes: seq<Change>, completed: bool)
    decreases |script|
  {
    if script == [] then changes == [] && completed
    else if Effective(s, script[0]) then
      && changes != [] && Does(s, script[0], changes[0])
      && Ran(Changed(s, changes[0]), script[1..], changes[1..], completed)
    else if script[0].AddTimer? then changes == [] && !completed
    else Ran(s, script[1..], changes, completed)
  }

  /** What one turn of the loop meets: two readings of the clock, and what the handler would do. */
  datatype Visit = Visit(now: int, script: seq<Command>, after: int)

  ghost function TimersOf(s: Schedule): set<Timer> {
    set e | e in s :: e.timer
  }

  lemma ChangedTimers(s: Schedule, c: Change)
    ensures TimersOf(Changed(s, c)) <= TimersOf(s) + {c.timer}
  {
  }

  class Scheduler {
    const timers: array<Timer?>
    var count: nat
    var next: Timer?
    ghost var schedule: Schedule

    ghost predicate Aligned()
      reads this, timers, timers[..]
    {
      && timers.Length == TIMER_MAXIMUM && count == |schedule| <= TIMER_MAXIMUM
      && DistinctTimers(schedule)
      && (forall i :: 0 <= i < count ==> timers[i] == schedule[i].timer)
      && (forall i :: 0 <= i < count ==> timers[i] != null && schedule[i].timer.timeout == schedule[i].timeout)
      && (forall i :: count <= i < timers.Length ==> timers[i] == null)
    }

    /** The cached timer is the one to fire next. */
    ghost predicate Valid()
      reads this, timers, timers[..]
    {
      && Aligned()
      && (count > 0 ==> exists i: nat :: IsFirst(schedule, i) && next == schedule[i].timer)
    }

    constructor ()
      ensures Valid() && schedule == [] && fresh(timers)
    {
      timers := new Timer?[TIMER_MAXIMUM](_ => null);
      count, next, schedule := 0, null, [];
    }

    /** aiko_timer_next_update. */
    method NextUpdate()
      requires Aligned() && count > 0
      modifies this`next
      ensures Valid()
    {
      next := timers[0];
      ghost var first := 0;
      for index := 1 to count
        invariant Aligned() && first < index && next == schedule[first].timer
        invariant forall k :: 0 <= k < index ==> schedule[first].timeout <= schedule[k].timeout
        invariant forall k :: 0 <= k < first ==> schedule[first].timeout < schedule[k].timeout
      {
        assert timers[index] == schedule[index].timer;
        if timers[index].timeout < next.timeout {
          next := timers[index];
          first := index;
        }
      }
      assert IsFirst(schedule, first);
    }

    /** The clock assignment of aiko_timer_update, for the timer at `index`. */
    method Restart(timer: Timer, now: int, ghost index: nat)
      requires Aligned() && index < count && timer == schedule[index].timer
      modifies this`schedule, timer
      ensures Aligned() && schedule == old(schedule)[index := Entry(timer, now + timer.Period())]
    {
      timer.timeout := now + timer.Period();
      schedule := schedule[index := Entry(timer, timer.timeout)];
    }

    /** aiko_timer_update, at time `now`. */
    method Update(timer: Timer, now: int)
      requires Valid()
      modifies this, timer
      ensures Valid() && schedule == Updated(old(schedule), timer, now)
    {
      ghost var s, i := schedule, IndexOf(schedule, timer);
      for index := 0 to count
        invariant Valid() && count == |s|
        invariant schedule == if index <= i then s else Updated(s, timer, now)
      {
        assert timers[index] == schedule[index].timer;
        if timers[index] == timer {
          assert index == i;
          Restart(timer, now, index);
          NextUpdate();
        }
      }
    }

    /** aiko_add_timer; a full table is an assertion failure in the source. */
    method Add(seconds: nat, microseconds: nat, now: int) returns (timer: Timer)
      requires Valid() && count < TIMER_MAXIMUM
      modifies this, timers
      ensures Valid() && fresh(timer) && timer.seconds == seconds && timer.microseconds == microseconds
      ensures schedule == Added(old(schedule), timer, now)
    {
      timer := new Timer(seconds, microseconds);
      ghost var s := schedule;
      timers[count] := timer;
      count := count + 1;
      schedule := s + [Entry(timer, timer.timeout)];
      Restart(timer, now, |s|);
      NextUpdate();
    }

    /** The shift of aiko_delete_timer: every later timer moves one place down. */
    method RemoveAt(at: nat)
      requires Aligned() && at < count
      modifies this, timers
      ensures Aligned() && schedule == old(schedule)[..at] + old(schedule)[at + 1..]
    {
      var index := at;
      while index + 1 < count
        invariant at <= index < count == old(count) && schedule == old(schedule)
        invariant forall k :: 0 <= k < at ==> timers[k] == old(timers[k])
        invariant forall k :: at <= k < index ==> timers[k] == old(timers[k + 1])
        invariant forall k :: index < k < timers.Length ==> timers[k] == old(timers[k])
      {
        timers[index] := timers[index + 1];
        index := index + 1;
      }
      count := count - 1;
      timers[count] := null;
      schedule := schedule[..at] + schedule[at + 1..];
    }

    /** aiko_delete_timer. */
    method Delete(timer: Timer)
      requires Valid()
      modifies this, timers
      ensures Valid() && schedule == Deleted(old(schedule), timer)
    {
      ghost var s := schedule;
      for index := 0 to count
        invariant Valid() && schedule == s && count == |s| && index <= IndexOf(s, timer)
      {
        assert timers[index] == schedule[index].timer;
        if timers[index] == timer {
          RemoveAt(index);
          if count > 0 {
            NextUpdate();
          }
          break;
        }
      }
    }

    /** aiko_next_timer. */
    method NextTimer() returns (timer: Timer)
      requires Valid() && count > 0
      ensures exists i: nat :: IsFirst(schedule, i) && timer == schedule[i].timer
    {
      timer := next;
    }

    lemma InTable()
      requires Aligned()
      ensures count == |schedule| <= TIMER_MAXIMUM
      ensures forall t :: t in timers[..] ==> t == null || t in TimersOf(schedule)
      ensures forall t :: t in TimersOf(schedule) ==> t in timers[..]
    {
      forall i | 0 <= i < timers.Length ensures timers[i] == null || timers[i] in TimersOf(schedule) {
        assert i < count ==> schedule[i] in schedule;
      }
      forall e | e in schedule ensures e.timer in timers[..] {
        var i :| 0 <= i < |schedule| && schedule[i] == e;
        assert timers[i] == e.timer;
      }
    }

    /** One timer call of a handler. */
    method Perform(command: Command) returns (ghost change: Option<Change>)
      requires Valid()
      modifies this, timers, timers[..]
      ensures Valid() && (change.Some? <==> Effective(old(schedule), command))
      ensures change.Some? ==> Does(old(schedule), command, change.value)
      ensures schedule == if change.None? then old(schedule) else Changed(old(schedule), change.value)
      ensures change.Some? ==> change.value.timer in old(timers[..]) || fresh(change.value.timer)
    {
      change := None;
      match command {
        case AddTimer(seconds, microseconds, now) =>
          if count < TIMER_MAXIMUM {
            var timer := Add(seconds, microseconds, now);
            change := Some(Insert(timer, now));
          }
        case DeleteTimer(slot) =>
          if slot < count {
            change := Some(Remove(timers[slot]));
            Delete(timers[slot]);
          }
        case UpdateTimer(slot, now) =>
          if slot < count {
            change := Some(Change.Restart(timers[slot], now));
            assert timers[slot] == schedule[slot].timer;
            Update(timers[slot], now);
          }
      }
    }

    /** A handler runs. */
    method Handle(script: seq<Command>) returns (completed: bool, ghost changes: seq<Change>)
      requires Valid()
      modifies this, timers, timers[..]
      ensures Valid() && schedule == ChangedBy(old(schedule), changes)
      ensures Ran(old(schedule), script, changes, completed)
      ensures forall t :: t in timers[..] ==> t == null || t in old(timers[..]) || fresh(t)
      decreases |script|
    {
      hide Does, Changed, Aligned, TimersOf;
      assert Aligned();
      InTable();
      completed, changes := true, [];
      if script != [] {
        if script[0].AddTimer? && count == TIMER_MAXIMUM {
          completed := false;
        } else {
          ghost var change := Perform(script[0]);
          InTable();
          if change.Some? {
            ChangedTimers(old(schedule), change.value);
          }
          assert forall t :: t in timers[..] ==> t == null || t in old(timers[..]) || fresh(t);
          assert forall i :: 0 <= i < timers.Length ==> timers[i] in timers[..];
          completed, changes := Handle(script[1..]);
          if change.Some? {
            ghost var rest := changes;
            changes := [change.value] + rest;
            assert changes[1..] == rest;
          }
        }
      }
    }

    /** The timer step of aiko_loop: `now` is the clock it reads, `script` what the handler would do,
        `after` the clock read by the restart that follows. */
    method Tick(now: int, script: seq<Command>, after: int)
      returns (fired: Timer?, completed: bool, ghost changes: seq<Change>)
      requires Valid()
      modifies this, timers, timers[..]
      ensures Valid()
      ensures match Fired(old(schedule), Turn(now, changes, after))
        case None => fired == null
        case Some(timer) => fired == timer
      ensures completed ==> schedule == Turned(old(schedule), Turn(now, changes, after))
      ensures if fired == null then completed && changes == [] else Ran(old(schedule), script, changes, completed)
      ensures forall t :: t in timers[..] ==> t == null || t in old(timers[..]) || fresh(t)
    {
      fired, completed, changes := null, true, [];
      if count > 0 {
        var timer := NextTimer();
        ghost var s := schedule;
        FirstUnique(s, First(s), IndexOf(s, timer));
        if now >= timer.timeout {
          fired := timer;
          completed, changes := Handle(script);
          if completed {
            Update(timer, after);
          }
        }
      }
    }

    /** The turns of a run so far, and the timers they fired. */
    ghost predicate Follows(s: Schedule, visits: seq<Visit>, turns: seq<Turn>, fired: seq<Timer?>)
      reads this
    {
      && schedule == RunTurns(s, turns) && |fired| == |turns| <= |visits|
      && forall n :: 0 <= n < |turns| ==>
           && turns[n].now == visits[n].now && turns[n].after == visits[n].after
           && fired[n] == FiredBy(s, turns, n)
           && (fired[n] != null ==> Ran(RunTurns(s, turns[..n]), visits[n].script, turns[n].changes, true))
    }

    /**
     * The timer steps of aiko_loop, until the visits or the program end.  Whichever timer `x` is due at
     * the start, it is fired within as many turns as there are timers ahead of it.
     */
    method Loop(visits: seq<Visit>) returns (completed: bool, fired: seq<Timer?>, ghost turns: seq<Turn>)
      requires Valid()
      modifies this, timers, timers[..]
      ensures completed ==> Valid() && |turns| == |visits| && Follows(old(schedule), visits, turns, fired)
      ensures completed ==> forall x, now :: FiredInTime(old(schedule), turns, fired, x, now)
    {
      hide Ran, Fair, Ahead, Fired, Turned, RunTurns, IsFirst;
      ghost var s := schedule;
      completed, fired, turns := true, [], [];
      NoTurns(s);
      while |fired| < |visits|
        invariant Valid() && Follows(s, visits, turns, fired)
        invariant forall t :: t in timers[..] ==> t == null || t in old(timers[..]) || fresh(t)
        decreases |visits| - |fired|
      {
        var timer;
        ghost var changes;
        var visit := visits[|fired|];
        assert forall i :: 0 <= i < timers.Length ==> timers[i] in timers[..];
        timer, completed, changes := Tick(visit.now, visit.script, visit.after);
        if !completed {
          return;
        }
        ghost var turn := Turn(visit.now, changes, visit.after);
        FollowsOn(s, turns, turn);
        fired, turns := fired + [timer], turns + [turn];
      }
      forall x, now ensures FiredInTime(s, turns, fired, x, now) {
        if Waiting(s, x, now) && Fair(s, turns, x, now) && |turns| > |Ahead(s, x)| {
          BoundedWaiting(s, turns, x, now);
          var n: nat :| n <= |Ahead(s, x)| && FiredAt(s, turns, n, x);
          assert fired[n] == x;
        }
      }
    }
  }
}
