/** Guard-shift log: events are replayed in timestamp order by a small state
    machine that records, per guard, the total minutes asleep and how many
    days each minute of the midnight hour was slept through. */
module Day4 {

  import opened Wrappers

  /** The minute field of a timestamp. */
  type Minute = m: int | 0 <= m < 60

  /** A timestamp: `stamp` orders events (the full date and time), `minute`
      is its minute field. */
  datatype Time = Time(stamp: int, minute: Minute)

  datatype Event =
    | BeginShift(time: Time, guard: int)
    | FallAsleep(time: Time)
    | WakeUp(time: Time)

  // ---------------------------------------------------------------------
  // Events are compared by timestamp only; `sorted()` is stable.
  // ---------------------------------------------------------------------

  ghost predicate SortedByTime(es: seq<Event>) {
    forall i, j :: 0 <= i < j < |es| ==> es[i].time.stamp <= es[j].time.stamp
  }

  function InsertEvent(e: Event, es: seq<Event>): (r: seq<Event>)
    requires SortedByTime(es)
    ensures SortedByTime(r)
    ensures multiset(r) == multiset(es) + multiset{e}
  {
    if es == [] || e.time.stamp <= es[0].time.stamp then
      NotBeforeHead(e, es);
      ConsByTime(e, es);
      [e] + es
    else
      SortedTailByTime(es);
      var rest := InsertEvent(e, es[1..]);
      NotBeforeHead(es[0], es);
      ConsByTime(es[0], rest);
      assert es == [es[0]] + es[1..];
      assert multiset([es[0]] + rest) == multiset{es[0]} + multiset(rest);
      [es[0]] + rest
  }

  lemma SortedTailByTime(es: seq<Event>)
    requires SortedByTime(es) && es != []
    ensures SortedByTime(es[1..])
  {
    forall i, j | 0 <= i < j < |es[1..]| ensures es[1..][i].time.stamp <= es[1..][j].time.stamp {
      assert es[1..][i] == es[i + 1] && es[1..][j] == es[j + 1];
    }
  }

  /** An event no later than the head of a sorted log is no later than any
      event of it, head or tail. */
  lemma NotBeforeHead(e: Event, es: seq<Event>)
    requires SortedByTime(es) && (es == [] || e.time.stamp <= es[0].time.stamp)
    ensures forall y :: y in multiset(es) ==> e.time.stamp <= y.time.stamp
    ensures es != [] ==> forall y :: y in multiset(es[1..]) ==> e.time.stamp <= y.time.stamp
  {
    forall y | y in multiset(es) ensures e.time.stamp <= y.time.stamp {
      var m :| 0 <= m < |es| && es[m] == y;
    }
    if es != [] {
      forall y | y in multiset(es[1..]) ensures e.time.stamp <= y.time.stamp {
        var m :| 0 <= m < |es[1..]| && es[1..][m] == y;
        assert es[m + 1] == y;
      }
    }
  }

  /** A sorted log stays sorted under a head no later than any of it. */
  lemma ConsByTime(e: Event, es: seq<Event>)
    requires SortedByTime(es) && forall y :: y in multiset(es) ==> e.time.stamp <= y.time.stamp
    ensures SortedByTime([e] + es)
  {
    forall k | 0 <= k < |es| ensures e.time.stamp <= es[k].time.stamp {
      assert es[k] in multiset(es);
    }
    var r := [e] + es;
    forall i, j | 0 <= i < j < |r| ensures r[i].time.stamp <= r[j].time.stamp {
      assert r[j] == es[j - 1];
      if i > 0 {
        assert r[i] == es[i - 1];
      }
    }
  }

  /** `events.sorted()`: a permutation of the log in timestamp order. */
  function SortEvents(es: seq<Event>): (r: seq<Event>)
    ensures SortedByTime(r)
    ensures multiset(r) == multiset(es)
  {
    if es == [] then []
    else
      assert es == [es[0]] + es[1..];
      InsertEvent(es[0], SortEvents(es[1..]))
  }

  // ---------------------------------------------------------------------
  // Guards
  // ---------------------------------------------------------------------

  /** `daysByMinute` maps a minute to the number of days it was slept through. */
  datatype Guard = Guard(id: int, minutesAsleep: int, daysByMinute: map<Minute, nat>)

  function Days(m: map<Minute, nat>, k: Minute): nat {
    if k in m then m[k] else 0
  }

  /** Adds one day to every minute of `lo..hi`. */
  function Bump(m: map<Minute, nat>, lo: int, hi: int): (r: map<Minute, nat>)
    requires 0 <= lo && hi < 60
    ensures forall k: Minute :: Days(r, k) == Days(m, k) + (if lo <= k <= hi then 1 else 0)
    ensures forall k: Minute :: k in r <==> k in m || lo <= k <= hi
    decreases hi - lo + 1
  {
    if lo > hi then m else Bump(m[lo := Days(m, lo) + 1], lo + 1, hi)
  }

  /** `Guard.sleep(lo..hi)`: the range's length `hi - lo + 1` is added to the
      total as written, and each minute of the range gains exactly one day. */
  function Sleep(g: Guard, lo: Minute, hi: int): (r: Guard)
    requires hi < 60
    ensures r.id == g.id
    ensures r.minutesAsleep == g.minutesAsleep + hi - lo + 1
    ensures forall k: Minute :: Days(r.daysByMinute, k) == Days(g.daysByMinute, k) + (if lo <= k <= hi then 1 else 0)
  {
    Guard(g.id, g.minutesAsleep + hi - lo + 1, Bump(g.daysByMinute, lo, hi))
  }

  /** Sum of the day counts of minutes `0..n-1`; with n = 60 it covers the whole map. */
  function SumDays(m: map<Minute, nat>, n: nat): nat
    requires n <= 60
  {
    if n == 0 then 0 else SumDays(m, n - 1) + Days(m, n - 1)
  }

  lemma {:induction false} SumDaysEmpty(n: nat)
    requires n <= 60
    ensures SumDays(map[], n) == 0
  {
    if n > 0 {
      SumDaysEmpty(n - 1);
    }
  }

  /** The bookkeeping invariant: the total equals the sum of the day counts. */
  ghost predicate Consistent(g: Guard) {
    g.minutesAsleep == SumDays(g.daysByMinute, 60)
  }

  lemma {:induction false} SumDaysBumped(m: map<Minute, nat>, m': map<Minute, nat>, lo: Minute, hi: int, n: nat)
    requires hi < 60 && n <= 60 && lo <= hi + 1
    requires forall k: Minute :: Days(m', k) == Days(m, k) + (if lo <= k <= hi then 1 else 0)
    ensures SumDays(m', n) == SumDays(m, n) + (if n <= lo then 0 else if n <= hi then n - lo else hi - lo + 1)
  {
    if n > 0 {
      SumDaysBumped(m, m', lo, hi, n - 1);
    }
  }

  /** Sleeping a non-reversed range keeps a guard consistent. */
  lemma SleepKeepsConsistent(g: Guard, lo: Minute, hi: int)
    requires hi < 60 && lo <= hi + 1 && Consistent(g)
    ensures Consistent(Sleep(g, lo, hi))
  {
    SumDaysBumped(g.daysByMinute, Sleep(g, lo, hi).daysByMinute, lo, hi, 60);
  }

  // ---------------------------------------------------------------------
  // The event interpreter
  // ---------------------------------------------------------------------

  datatype State = Initial | OnDuty(guard: Guard) | Asleep(guard: Guard, sleepMinute: Minute)

  /** The guard records in first-shift order (Kotlin's insertion-ordered map). */
  function Lookup(gs: seq<Guard>, id: int): (r: Option<Guard>)
    ensures r.Some? ==> r.value in gs && r.value.id == id
    ensures r.None? <==> forall g :: g in gs ==> g.id != id
  {
    if gs == [] then None else if gs[0].id == id then Some(gs[0]) else Lookup(gs[1..], id)
  }

  /** `guards[g.id] = g`: replaces the record in place or appends a new one. */
  function Put(gs: seq<Guard>, g: Guard): (r: seq<Guard>)
    ensures Lookup(r, g.id) == Some(g)
    ensures forall id :: id != g.id ==> Lookup(r, id) == Lookup(gs, id)
    ensures forall h :: h in r ==> h in gs || h == g
    ensures |r| == |gs| || |r| == |gs| + 1
    ensures UniqueIds(gs) ==> UniqueIds(r)
  {
    if gs == [] then [g]
    else
      TailUnique(gs);
      if gs[0].id == g.id then
        assert UniqueIds(gs) ==> UniqueIds([g] + gs[1..]) by {
          if UniqueIds(gs) {
            ConsUnique(g, gs[1..]);
          }
        }
        [g] + gs[1..]
      else
        var rest := Put(gs[1..], g);
        assert UniqueIds(gs) ==> UniqueIds([gs[0]] + rest) by {
          if UniqueIds(gs) {
            ConsUnique(gs[0], rest);
          }
        }
        [gs[0]] + rest
  }

  /** No two guard records share an id (Kotlin's map has one entry per key). */
  ghost predicate UniqueIds(gs: seq<Guard>) {
    forall i, j :: 0 <= i < j < |gs| ==> gs[i].id != gs[j].id
  }

  lemma TailUnique(gs: seq<Guard>)
    requires gs != []
    ensures UniqueIds(gs) ==> UniqueIds(gs[1..]) && forall x :: x in gs[1..] ==> x.id != gs[0].id
  {
    if UniqueIds(gs) {
      forall x | x in gs[1..] ensures x.id != gs[0].id {
        var j :| 0 <= j < |gs[1..]| && gs[1..][j] == x;
        assert gs[j + 1] == x;
      }
    }
  }

  lemma ConsUnique(h: Guard, rest: seq<Guard>)
    requires UniqueIds(rest) && forall x :: x in rest ==> x.id != h.id
    ensures UniqueIds([h] + rest)
  {
    forall i, j | 0 <= i < j < |[h] + rest| ensures ([h] + rest)[i].id != ([h] + rest)[j].id {
      if i == 0 {
        assert ([h] + rest)[j] == rest[j - 1];
      }
    }
  }

  datatype Log = Log(state: State, guards: seq<Guard>)

  /** One event: a shift start reuses the guard's record (or opens an empty
      one); falling asleep is legal only on duty; waking only when asleep, and
      it records minutes `sleepMinute .. wake-1`. */
  function Step(log: Log, e: Event): (r: Result<Log>)
    ensures e.FallAsleep? ==> (r.Err? <==> !log.state.OnDuty?)
    ensures e.WakeUp? ==> (r.Err? <==> !log.state.Asleep?)
    ensures e.BeginShift? ==> r.Ok? && r.value.state.OnDuty? && r.value.state.guard.id == e.guard
    ensures e.BeginShift? && Lookup(log.guards, e.guard).Some? ==> r.Ok? && r.value.state.guard == Lookup(log.guards, e.guard).value
    ensures r.Ok? && e.WakeUp? ==> r.value.state == OnDuty(Sleep(log.state.guard, log.state.sleepMinute, e.time.minute - 1))
    ensures r.Ok? && e.FallAsleep? ==> r.value == Log(Asleep(log.state.guard, e.time.minute), log.guards)
    ensures r.Ok? && !e.FallAsleep? ==> Lookup(r.value.guards, r.value.state.guard.id) == Some(r.value.state.guard)
    ensures r.Ok? && !e.FallAsleep? ==>
      forall id :: id != r.value.state.guard.id ==> Lookup(r.value.guards, id) == Lookup(log.guards, id)
  {
    match e
    case BeginShift(_, id) =>
      var g := match Lookup(log.guards, id) case Some(g) => g case None => Guard(id, 0, map[]);
      Ok(Log(OnDuty(g), Put(log.guards, g)))
    case FallAsleep(t) =>
      if log.state.OnDuty? then Ok(Log(Asleep(log.state.guard, t.minute), log.guards))
      else Err("IllegalStateException: FallAsleep")
    case WakeUp(t) =>
      if log.state.Asleep? then
        var g := Sleep(log.state.guard, log.state.sleepMinute, t.minute - 1);
        Ok(Log(OnDuty(g), Put(log.guards, g)))
      else Err("IllegalStateException: WakeUp")
  }

  /** Guard `id` began a shift among the first `n` events. */
  ghost predicate ShiftBegan(es: seq<Event>, n: nat, id: int) {
    exists k :: 0 <= k < n && k < |es| && es[k].BeginShift? && es[k].guard == id
  }

  /** Every record, and the guard on duty, belongs to a guard whose shift
      began among the first `i` events. */
  ghost predicate Opened(es: seq<Event>, i: nat, log: Log) {
    && (forall g :: g in log.guards ==> ShiftBegan(es, i, g.id))
    && (!log.state.Initial? ==> ShiftBegan(es, i, log.state.guard.id))
  }

  lemma StepOpened(es: seq<Event>, i: nat, log: Log)
    requires i < |es|
    ensures Opened(es, i, log) && Step(log, es[i]).Ok? ==> Opened(es, i + 1, Step(log, es[i]).value)
  {
    if Opened(es, i, log) && Step(log, es[i]).Ok? {
      forall id | ShiftBegan(es, i, id) ensures ShiftBegan(es, i + 1, id) {
        var k :| 0 <= k < i && k < |es| && es[k].BeginShift? && es[k].guard == id;
        assert 0 <= k < i + 1;
      }
      if es[i].BeginShift? {
        assert ShiftBegan(es, i + 1, es[i].guard) by {
          assert 0 <= i < i + 1;
        }
      }
    }
  }

  // ---------------------------------------------------------------------
  // The naps of a log, read off the events directly
  // ---------------------------------------------------------------------

  /** The guard whose shift began last among the first `n` events. */
  ghost function OnDutyAt(es: seq<Event>, n: nat): Option<int>
    requires n <= |es|
  {
    if n == 0 then None
    else if es[n - 1].BeginShift? then Some(es[n - 1].guard)
    else OnDutyAt(es, n - 1)
  }

  /** Event `i` ends a nap: it wakes up right after a fall asleep. */
  ghost predicate WakeAt(es: seq<Event>, i: nat) {
    0 < i < |es| && es[i].WakeUp? && es[i - 1].FallAsleep?
  }

  /** Guard `id` napped through minute `k` in the nap ended by event `i`. */
  ghost predicate NapCovers(es: seq<Event>, i: nat, id: int, k: Minute) {
    WakeAt(es, i) && OnDutyAt(es, i) == Some(id) && es[i - 1].time.minute <= k < es[i].time.minute
  }

  /** How many of the naps ended among the first `n` events guard `id`
      slept through minute `k`. */
  ghost function NapDays(es: seq<Event>, n: nat, id: int, k: Minute): nat
    requires n <= |es|
  {
    if n == 0 then 0 else NapDays(es, n - 1, id, k) + (if NapCovers(es, n - 1, id, k) then 1 else 0)
  }

  /** The total length, wake minute less sleep minute, of guard `id`'s naps
      ended among the first `n` events. */
  ghost function NapMinutes(es: seq<Event>, n: nat, id: int): int
    requires n <= |es|
  {
    if n == 0 then 0
    else
      var nap := if WakeAt(es, n - 1) && OnDutyAt(es, n - 1) == Some(id) then es[n - 1].time.minute - es[n - 2].time.minute else 0;
      NapMinutes(es, n - 1, id) + nap
  }

  /** `g` holds exactly the naps of its guard among the first `n` events. */
  ghost predicate Records(es: seq<Event>, n: nat, g: Guard)
    requires n <= |es|
  {
    && g.minutesAsleep == NapMinutes(es, n, g.id)
    && forall k: Minute :: Days(g.daysByMinute, k) == NapDays(es, n, g.id, k)
  }

  /** The record of guard `id`, or the empty one a first shift opens. */
  function Record(gs: seq<Guard>, id: int): Guard {
    match Lookup(gs, id) case Some(g) => g case None => Guard(id, 0, map[])
  }

  /** After `i` events every guard's record, stored or not yet opened, holds
      exactly its naps; the guard on duty is the one whose shift began last,
      and it is the stored record; a sleeping guard fell asleep at event `i-1`. */
  ghost predicate NapsRecorded(es: seq<Event>, i: nat, log: Log) {
    && i <= |es|
    && (forall id :: Records(es, i, Record(log.guards, id)))
    && (log.state.Initial? ==> OnDutyAt(es, i).None?)
    && (!log.state.Initial? ==>
          OnDutyAt(es, i) == Some(log.state.guard.id) && Lookup(log.guards, log.state.guard.id) == Some(log.state.guard))
    && (log.state.Asleep? ==> 0 < i && es[i - 1].FallAsleep? && es[i - 1].time.minute == log.state.sleepMinute)
  }

  /** An event that ends no nap leaves every count as it was. */
  lemma NoNapAt(es: seq<Event>, i: nat, g: Guard)
    requires i < |es| && !WakeAt(es, i) && Records(es, i, g)
    ensures Records(es, i + 1, g)
  {
  }

  /** One replayed event keeps the records exact. */
  lemma StepRecords(es: seq<Event>, i: nat, log: Log)
    requires i < |es| && Step(log, es[i]).Ok?
    ensures NapsRecorded(es, i, log) ==> NapsRecorded(es, i + 1, Step(log, es[i]).value)
  {
    if NapsRecorded(es, i, log) {
      StepRecordsKept(es, i, log);
    }
  }

  lemma StepRecordsKept(es: seq<Event>, i: nat, log: Log)
    requires i < |es| && NapsRecorded(es, i, log) && Step(log, es[i]).Ok?
    ensures NapsRecorded(es, i + 1, Step(log, es[i]).value)
  {
    match es[i] {
      case BeginShift(_, _) => ShiftRecords(es, i, log);
      case FallAsleep(_) => FallRecords(es, i, log);
      case WakeUp(_) => WakeRecords(es, i, log);
    }
  }

  /** A shift start opens, at most, an empty record: no count moves. */
  lemma ShiftRecords(es: seq<Event>, i: nat, log: Log)
    requires i < |es| && es[i].BeginShift? && NapsRecorded(es, i, log)
    ensures NapsRecorded(es, i + 1, Step(log, es[i]).value)
  {
    var log' := Step(log, es[i]).value;
    forall id ensures Records(es, i + 1, Record(log'.guards, id)) {
      assert Record(log'.guards, id) == Record(log.guards, id);
      NoNapAt(es, i, Record(log.guards, id));
    }
  }

  /** Falling asleep changes no record. */
  lemma FallRecords(es: seq<Event>, i: nat, log: Log)
    requires i < |es| && es[i].FallAsleep? && NapsRecorded(es, i, log) && Step(log, es[i]).Ok?
    ensures NapsRecorded(es, i + 1, Step(log, es[i]).value)
  {
    forall id ensures Records(es, i + 1, Record(log.guards, id)) {
      NoNapAt(es, i, Record(log.guards, id));
    }
  }

  /** Waking up adds the nap just ended to the sleeper's record, and only to it. */
  lemma WakeRecords(es: seq<Event>, i: nat, log: Log)
    requires i < |es| && es[i].WakeUp? && NapsRecorded(es, i, log) && Step(log, es[i]).Ok?
    ensures NapsRecorded(es, i + 1, Step(log, es[i]).value)
  {
    var log' := Step(log, es[i]).value;
    var g := log.state.guard;
    assert WakeAt(es, i);
    forall id ensures Records(es, i + 1, Record(log'.guards, id)) {
      if id != g.id {
        assert Record(log'.guards, id) == Record(log.guards, id);
        OtherNap(es, i, Record(log.guards, id));
      } else {
        assert Record(log.guards, id) == g;
        SleeperNap(es, i, g, log.state.sleepMinute);
      }
    }
  }

  /** The sleeper's record gains the nap that event `i` ends. */
  lemma SleeperNap(es: seq<Event>, i: nat, g: Guard, sleepMinute: Minute)
    requires i < |es| && WakeAt(es, i) && OnDutyAt(es, i) == Some(g.id)
    requires es[i - 1].time.minute == sleepMinute && Records(es, i, g)
    ensures Records(es, i + 1, Sleep(g, sleepMinute, es[i].time.minute - 1))
  {
  }

  /** Nobody else's record changes when event `i` ends a nap. */
  lemma OtherNap(es: seq<Event>, i: nat, h: Guard)
    requires i < |es| && WakeAt(es, i) && OnDutyAt(es, i) != Some(h.id) && Records(es, i, h)
    ensures Records(es, i + 1, h)
  {
  }

  /** Replays `es[i..]`; a replay fails only on an out-of-place nap event, and
      it keeps one record per guard id, one for every guard whose shift began.
      (`RunFromRecords` shows each record holds exactly its guard's naps.) */
  function RunFrom(es: seq<Event>, i: nat, log: Log): (r: Result<Log>)
    requires i <= |es|
    ensures r.Err? ==> r.msg == "IllegalStateException: FallAsleep" || r.msg == "IllegalStateException: WakeUp"
    ensures r.Ok? && UniqueIds(log.guards) ==> UniqueIds(r.value.guards)
    ensures r.Ok? ==> forall id :: Lookup(log.guards, id).Some? ==> Lookup(r.value.guards, id).Some?
    ensures r.Ok? ==> forall k :: i <= k < |es| && es[k].BeginShift? ==> Lookup(r.value.guards, es[k].guard).Some?
    ensures r.Ok? && Opened(es, i, log) ==> forall g :: g in r.value.guards ==> ShiftBegan(es, |es|, g.id)
    decreases |es| - i
  {
    if i == |es| then Ok(log)
    else match Step(log, es[i])
      case Err(m) => Err(m)
      case Ok(log') =>
        StepOpened(es, i, log);
        StepKeeps(log, es[i]);
        RunFrom(es, i + 1, log')
  }

  /** `runEvents`: replays the log in timestamp order and returns the guard
      records: one per guard id, exactly the guards that began a shift, each
      holding the naps the sorted log gives its guard. */
  function RunEvents(events: seq<Event>): (r: Result<seq<Guard>>)
    ensures r.Err? ==> r.msg == "IllegalStateException: FallAsleep" || r.msg == "IllegalStateException: WakeUp"
    ensures r.Ok? ==> UniqueIds(r.value)
    ensures r.Ok? ==> forall e :: e in events && e.BeginShift? ==> Lookup(r.value, e.guard).Some?
    ensures r.Ok? ==> forall g :: g in r.value ==> exists e :: e in events && e.BeginShift? && e.guard == g.id
    ensures r.Ok? ==> var sorted := SortEvents(events);
      forall g :: g in r.value ==> Records(sorted, |sorted|, g)
  {
    var sorted := SortEvents(events);
    match RunFrom(sorted, 0, Log(Initial, []))
    case Err(m) => Err(m)
    case Ok(log) =>
      SameElements(events, sorted);
      InitialRecorded(sorted);
      RunFromRecords(sorted, 0, Log(Initial, []));
      StoredRecords(sorted, log);
      assert forall g :: g in log.guards ==> exists e :: e in events && e.BeginShift? && e.guard == g.id by {
        forall g | g in log.guards ensures exists e :: e in events && e.BeginShift? && e.guard == g.id {
          var k :| 0 <= k < |sorted| && sorted[k].BeginShift? && sorted[k].guard == g.id;
          assert sorted[k] in sorted;
        }
      }
      Ok(log.guards)
  }

  /** One event keeps the ids distinct and every stored id stored, and a
      shift start stores its guard. */
  lemma StepKeeps(log: Log, e: Event)
    requires Step(log, e).Ok?
    ensures UniqueIds(log.guards) ==> UniqueIds(Step(log, e).value.guards)
    ensures forall id :: Lookup(log.guards, id).Some? ==> Lookup(Step(log, e).value.guards, id).Some?
    ensures e.BeginShift? ==> Lookup(Step(log, e).value.guards, e.guard).Some?
  {
  }

  /** Invariant: a replay keeps every guard's record equal to the naps the
      replayed events give that guard. */
  lemma {:induction false} RunFromRecords(es: seq<Event>, i: nat, log: Log)
    requires NapsRecorded(es, i, log)
    ensures RunFrom(es, i, log).Ok? ==> NapsRecorded(es, |es|, RunFrom(es, i, log).value)
    decreases |es| - i
  {
    if i < |es| {
      var r := Step(log, es[i]);
      if r.Ok? {
        StepRecords(es, i, log);
        RunFromRecords(es, i + 1, r.value);
      }
    }
  }

  /** Before any event nobody has napped. */
  lemma InitialRecorded(es: seq<Event>)
    ensures NapsRecorded(es, 0, Log(Initial, []))
  {
    forall id ensures Records(es, 0, Record([], id)) {
      assert Record([], id) == Guard(id, 0, map[]);
    }
  }

  /** With one record per id, every stored record holds its guard's naps. */
  lemma StoredRecords(es: seq<Event>, log: Log)
    requires UniqueIds(log.guards) && NapsRecorded(es, |es|, log)
    ensures forall g :: g in log.guards ==> Records(es, |es|, g)
  {
    forall g | g in log.guards ensures Records(es, |es|, g) {
      LookupUnique(log.guards, g);
      assert Record(log.guards, g.id) == g;
    }
  }

  /** With one record per id, a stored record is the one its id finds. */
  lemma LookupUnique(gs: seq<Guard>, g: Guard)
    requires UniqueIds(gs) && g in gs
    ensures Lookup(gs, g.id) == Some(g)
    decreases |gs|
  {
    TailUnique(gs);
    if gs[0] != g {
      LookupUnique(gs[1..], g);
    }
  }

  /** A permutation has the same elements. */
  lemma SameElements<T>(a: seq<T>, b: seq<T>)
    requires multiset(a) == multiset(b)
    ensures forall x :: x in a <==> x in b
  {
    forall x
      ensures x in a <==> x in b
    {
      assert x in a <==> x in multiset(a);
      assert x in b <==> x in multiset(b);
    }
  }

  /** Every nap ends no earlier than it began (the puzzle's logs satisfy this). */
  ghost predicate NapsForward(es: seq<Event>) {
    forall i :: 0 <= i < |es| - 1 && es[i].FallAsleep? && es[i + 1].WakeUp? ==>
      es[i].time.minute <= es[i + 1].time.minute
  }

  ghost predicate LogConsistent(es: seq<Event>, i: nat, log: Log) {
    && (forall g :: g in log.guards ==> Consistent(g))
    && (log.state.OnDuty? ==> Consistent(log.state.guard))
    && (log.state.Asleep? ==>
          && Consistent(log.state.guard)
          && 0 < i <= |es|
          && es[i - 1].FallAsleep?
          && es[i - 1].time.minute == log.state.sleepMinute)
  }

  lemma {:induction false} RunFromConsistent(es: seq<Event>, i: nat, log: Log)
    requires i <= |es| && NapsForward(es) && LogConsistent(es, i, log)
    ensures RunFrom(es, i, log).Ok? ==> forall g :: g in RunFrom(es, i, log).value.guards ==> Consistent(g)
    decreases |es| - i
  {
    if i < |es| {
      var r := Step(log, es[i]);
      if r.Ok? {
        StepConsistent(es, i, log);
        RunFromConsistent(es, i + 1, r.value);
      }
    }
  }

  /** One replayed event keeps the log consistent. */
  lemma StepConsistent(es: seq<Event>, i: nat, log: Log)
    requires i < |es| && NapsForward(es) && LogConsistent(es, i, log)
    requires Step(log, es[i]).Ok?
    ensures LogConsistent(es, i + 1, Step(log, es[i]).value)
  {
    match es[i] {
      case BeginShift(_, id) =>
        SumDaysEmpty(60);
      case FallAsleep(t) =>
      case WakeUp(t) =>
        SleepKeepsConsistent(log.state.guard, log.state.sleepMinute, t.minute - 1);
    }
  }

  /** Invariant: every guard record's total equals the sum of its day counts. */
  lemma RunEventsConsistent(events: seq<Event>)
    requires NapsForward(SortEvents(events))
    ensures RunEvents(events).Ok? ==> forall g :: g in RunEvents(events).value ==> Consistent(g)
  {
    RunFromConsistent(SortEvents(events), 0, Log(Initial, []));
  }

  // ---------------------------------------------------------------------
  // Strategies
  // ---------------------------------------------------------------------

  /** `maxBy { minutesAsleep }`: the first guard with the largest total. */
  function MostMinutesAsleep(gs: seq<Guard>): (r: Result<nat>)
    ensures r.Ok? <==> gs != []
    ensures r.Ok? ==> r.value < |gs| && forall k :: 0 <= k < |gs| ==> gs[k].minutesAsleep <= gs[r.value].minutesAsleep
    ensures r.Ok? ==> forall k :: 0 <= k < r.value ==> gs[k].minutesAsleep < gs[r.value].minutesAsleep
  {
    if gs == [] then Err("IllegalArgumentException") else Ok(FirstMax(gs, |gs| - 1))
  }

  function FirstMax(gs: seq<Guard>, n: nat): (r: nat)
    requires n < |gs|
    ensures r <= n
    ensures forall k :: 0 <= k <= n ==> gs[k].minutesAsleep <= gs[r].minutesAsleep
    ensures forall k :: 0 <= k < r ==> gs[k].minutesAsleep < gs[r].minutesAsleep
  {
    if n == 0 then 0
    else
      var b := FirstMax(gs, n - 1);
      if gs[n].minutesAsleep > gs[b].minutesAsleep then n else b
  }

  /** The earliest minute with the largest day count among minutes `0..n-1`. */
  function BestMinute(m: map<Minute, nat>, n: nat): (r: Option<Minute>)
    requires n <= 60
    ensures r.None? <==> forall k: Minute :: k < n ==> k !in m
    ensures r.Some? ==> r.value < n && r.value in m
    ensures r.Some? ==> forall k: Minute :: k < n && k in m ==> m[k] <= m[r.value]
  {
    if n == 0 then None
    else match BestMinute(m, n - 1)
      case None => if n - 1 in m then Some(n - 1) else None
      case Some(b) => if n - 1 in m && m[n - 1] > m[b] then Some(n - 1) else Some(b)
  }

  /** `mostAsleepMinute`: a minute slept through on the most days; it fails
      for a guard who never slept. */
  function MostAsleepMinute(g: Guard): (r: Result<Minute>)
    ensures r.Err? <==> g.daysByMinute == map[]
    ensures r.Ok? ==> r.value in g.daysByMinute
    ensures r.Ok? ==> forall k :: k in g.daysByMinute ==> g.daysByMinute[k] <= g.daysByMinute[r.value]
  {
    match BestMinute(g.daysByMinute, 60)
    case None => Err("IllegalArgumentException")
    case Some(k) => Ok(k)
  }

  /** Guard `i` has the largest total, `k` is one of its most-slept minutes,
      and `v` is the id times the minute. */
  ghost predicate Part1Answer(gs: seq<Guard>, i: int, k: Minute, v: int) {
    && 0 <= i < |gs|
    && k in gs[i].daysByMinute
    && (forall j :: 0 <= j < |gs| ==> gs[j].minutesAsleep <= gs[i].minutesAsleep)
    && (forall k' :: k' in gs[i].daysByMinute ==> gs[i].daysByMinute[k'] <= gs[i].daysByMinute[k])
    && v == gs[i].id * k
  }

  /** Guard `i` slept through minute `k` on more days than any guard slept
      through any minute, and `v` is the id times the minute. */
  ghost predicate Part2Answer(gs: seq<Guard>, i: int, k: Minute, v: int) {
    && 0 <= i < |gs|
    && k in gs[i].daysByMinute
    && (forall j, k' :: 0 <= j < |gs| && k' in gs[j].daysByMinute ==> gs[j].daysByMinute[k'] <= gs[i].daysByMinute[k])
    && v == gs[i].id * k
  }

  /** Part 1: the sleepiest guard's id times that guard's most-slept minute. */
  function Part1(gs: seq<Guard>): (r: Result<int>)
    ensures r.Err? <==> gs == [] || gs[MostMinutesAsleep(gs).value].daysByMinute == map[]
    ensures r.Ok? ==> exists i, k :: Part1Answer(gs, i, k, r.value)
  {
    match MostMinutesAsleep(gs)
    case Err(m) => Err(m)
    case Ok(i) =>
      match MostAsleepMinute(gs[i])
      case Err(m) => Err(m)
      case Ok(k) =>
        assert Part1Answer(gs, i, k, gs[i].id * k);
        Ok(gs[i].id * k)
  }

  /** Index of a guard holding the largest single (minute, count) entry among
      guards `0..n`, with that minute; None when none of them ever slept. */
  function BestEntry(gs: seq<Guard>, n: nat): (r: Option<(nat, Minute)>)
    requires n < |gs|
    ensures r.None? <==> forall j :: 0 <= j <= n ==> gs[j].daysByMinute == map[]
    ensures r.Some? ==> r.value.0 <= n && r.value.1 in gs[r.value.0].daysByMinute
    ensures r.Some? ==> forall j, k :: 0 <= j <= n && k in gs[j].daysByMinute ==>
      gs[j].daysByMinute[k] <= gs[r.value.0].daysByMinute[r.value.1]
  {
    var here := MostAsleepMinute(gs[n]);
    var before := if n == 0 then None else BestEntry(gs, n - 1);
    match before
    case None => if here.Ok? then Some((n, here.value)) else None
    case Some(best) =>
      if here.Ok? && gs[n].daysByMinute[here.value] > gs[best.0].daysByMinute[best.1] then Some((n, here.value))
      else Some(best)
  }

  /** Part 2: guard times minute of the most frequent (guard, minute) pair. */
  function Part2(gs: seq<Guard>): (r: Result<int>)
    ensures r.Err? <==> forall j :: 0 <= j < |gs| ==> gs[j].daysByMinute == map[]
    ensures r.Ok? ==> exists i, k :: Part2Answer(gs, i, k, r.value)
  {
    if gs == [] then Err("IllegalArgumentException")
    else match BestEntry(gs, |gs| - 1)
      case None => Err("IllegalArgumentException")
      case Some(best) =>
        assert Part2Answer(gs, best.0, best.1, gs[best.0].id * best.1);
        Ok(gs[best.0].id * best.1)
  }
}
