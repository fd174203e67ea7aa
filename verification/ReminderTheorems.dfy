/** What the reminder store promises over whole runs. */
module ReminderTheorems {
  import opened Sequences
  import opened ReminderModel
  import opened ReminderRuns

  // ---------- what each operation does, in plain terms ----------

  /** A new user is last, with an empty list; a known name, or no memory, changes nothing. */
  lemma AddUserMeans(w: World, name: string, memory: bool)
    ensures var known := exists a :: a in w.store.accounts && a.name == name;
            Step(w, AddUser(name, memory))
            == if !memory || known then w
               else w.(store := Content(w.store.accounts + [Account(name, [])], w.store.queue))
  {
    var k := FindUser(w.store.accounts, name);
    if k < |w.store.accounts| {
      assert w.store.accounts[k] in w.store.accounts;
    } else {
      forall a | a in w.store.accounts ensures a.name != name {
        var i :| 0 <= i < |w.store.accounts| && w.store.accounts[i] == a;
      }
    }
  }

  /** A new reminder is last on the list of the first user of that name, and in the queue behind all that wait no
      longer; nothing else changes. */
  lemma AddReminderMeans(w: World, name: string, text: string, time: int, k: nat)
    requires k < |w.store.accounts| && w.store.accounts[k].name == name
    requires forall i | 0 <= i < k :: w.store.accounts[i].name != name
    ensures var v, id := Step(w, AddReminder(name, text, time, true)), |w.added|;
            && v.now == w.now && v.fired == w.fired && v.removed == w.removed
            && v.added == w.added + [Record(name, text, time, w.now)]
            && v.store.accounts == w.store.accounts[k := Account(name, w.store.accounts[k].pending + [id])]
            && exists p: nat ::
                 && p <= |w.store.queue|
                 && v.store.queue == w.store.queue[..p] + [Entry(id, name, text, time)] + w.store.queue[p..]
                 && (forall i | 0 <= i < p :: w.store.queue[i].time <= time)
                 && (p < |w.store.queue| ==> w.store.queue[p].time > time)
  {
    assert FindUser(w.store.accounts, name) == k;
    var p := InsertPoint(w.store.queue, time);
    assert Step(w, AddReminder(name, text, time, true)).store.queue
        == w.store.queue[..p] + [Entry(|w.added|, name, text, time)] + w.store.queue[p..];
  }

  lemma NotAddedMeans(w: World, name: string, text: string, time: int, memory: bool)
    requires !memory || forall a | a in w.store.accounts :: a.name != name
    ensures Step(w, AddReminder(name, text, time, memory)) == w
  {
    var k := FindUser(w.store.accounts, name);
    assert k < |w.store.accounts| ==> w.store.accounts[k] in w.store.accounts;
  }

  /** A tick takes one from each time that is not 1, and the entries with time 1 off the queue and off the lists of
      their owners; these and no others give alerts. */
  lemma TickMeans(w: World)
    ensures var v, q := Step(w, Tick), w.store.queue;
            && v.now == w.now + 1 && v.added == w.added && v.removed == w.removed
            && (forall x :: x in v.store.queue <==>
                  exists e :: e in q && e.time != 1 && x == Entry(e.id, e.owner, e.text, e.time - 1))
            && |v.store.accounts| == |w.store.accounts|
            && (forall i | 0 <= i < |w.store.accounts| ::
                  v.store.accounts[i].name == w.store.accounts[i].name &&
                  forall id :: id in v.store.accounts[i].pending <==>
                    id in w.store.accounts[i].pending &&
                    !exists e :: e in q && e.time == 1 && e.id == id && e.owner == w.store.accounts[i].name)
            && w.fired <= v.fired
            && (forall a :: a in v.fired[|w.fired|..] <==>
                  exists e :: e in q && e.time == 1 && a == Alert(e.id, e.text, w.now + 1))
  {
    TickStep(w);
    var v, exp := Step(w, Tick), Expiring(w.store.queue);
    var alerts := Alerts(exp, w.now + 1);
    assert v.fired[|w.fired|..] == alerts;
    forall a
      ensures a in alerts <==> exists e :: e in w.store.queue && e.time == 1 && a == Alert(e.id, e.text, w.now + 1)
    {
      AlertsAre(exp, w.now + 1, a);
    }
  }

  lemma AlertsAre(entries: seq<Entry>, at: nat, a: Alert)
    ensures a in Alerts(entries, at) <==> exists e :: e in entries && a == Alert(e.id, e.text, at)
  {
    if a in Alerts(entries, at) {
      var i :| 0 <= i < |entries| && Alerts(entries, at)[i] == a;
      assert entries[i] in entries;
    }
    if e :| e in entries && a == Alert(e.id, e.text, at) {
      var i :| 0 <= i < |entries| && entries[i] == e;
      assert Alerts(entries, at)[i] == a;
    }
  }

  // ---------- every reminder goes off exactly when it should ----------

  function Ticks(cs: seq<Command>): (n: nat) {
    if cs == [] then 0 else (if cs[0].Tick? then 1 else 0) + Ticks(cs[1..])
  }

  lemma {:induction false} TicksAre(cs: seq<Command>)
    ensures Ticks(cs) == multiset(cs)[Tick]
  {
    if cs != [] {
      TicksAre(cs[1..]);
      assert cs == [cs[0]] + cs[1..];
    }
  }

  lemma {:induction false} RunGrows(w: World, cs: seq<Command>)
    ensures var v := Run(w, cs); v.now == w.now + Ticks(cs) && w.added <= v.added
    decreases cs
  {
    if cs != [] {
      RunGrows(Step(w, cs[0]), cs[1..]);
    }
  }

  lemma {:induction false} RunInTwo(w: World, a: seq<Command>, b: seq<Command>)
    ensures Run(w, a + b) == Run(Run(w, a), b)
    ensures LegalRun(w, a + b) <==> LegalRun(w, a) && LegalRun(Run(w, a), b)
    decreases a
  {
    if a == [] {
      assert a + b == b;
    } else {
      assert (a + b)[1..] == a[1..] + b;
      RunInTwo(Step(w, a[0]), a[1..], b);
    }
  }

  /** At any time a reminder that was not removed has gone off if and only if its deadline has come and its
      time was positive; it went off once, on the tick of its deadline. */
  lemma Fate(w: World, id: nat)
    requires Invariant(w) && id < |w.added| && id !in w.removed
    ensures var r := w.added[id];
            && (id in FiredIds(w.fired) <==> r.time > 0 && w.now >= r.Due())
            && multiset(FiredIds(w.fired))[id] <= 1
            && (forall a | a in w.fired && a.id == id :: a.at == r.Due() && a.text == r.text)
  {
    FateOf(w, id);
    var q, f := Ids(w.store.queue), FiredIds(w.fired);
    if id in f {
      var i :| 0 <= i < |f| && f[i] == id;
      assert w.fired[i] in w.fired;
    } else {
      assert id !in multiset(f) && id !in multiset(w.removed);
      assert id in multiset(q);
      var i :| 0 <= i < |q| && q[i] == id;
      assert w.store.queue[i] in w.store.queue;
    }
  }

  /** A reminder added with a positive time and not removed goes off exactly on the `time`-th later tick,
      whatever else happens before and after; one added with no time left never does. */
  lemma FiresOnItsTick(before: seq<Command>, name: string, text: string, time: int, after: seq<Command>)
    requires var w := Run(EMPTY, before); FindUser(w.store.accounts, name) < |w.store.accounts|
    requires LegalRun(EMPTY, before + [AddReminder(name, text, time, true)] + after)
    ensures var id := |Run(EMPTY, before).added|;
            var w := Run(EMPTY, before + [AddReminder(name, text, time, true)] + after);
            id !in w.removed ==>
              && (id in FiredIds(w.fired) <==> 0 < time <= Ticks(after))
              && multiset(FiredIds(w.fired))[id] <= 1
              && (forall a | a in w.fired && a.id == id :: a.at == Ticks(before) + time && a.text == text)
  {
    var c := AddReminder(name, text, time, true);
    var u, id := Run(EMPTY, before), |Run(EMPTY, before).added|;
    RunInTwo(EMPTY, before, [c] + after);
    assert before + [c] + after == before + ([c] + after);
    assert ([c] + after)[1..] == after;
    var w := Run(Step(u, c), after);
    RunGrows(EMPTY, before);
    RunGrows(Step(u, c), after);
    assert w.added[id] == Step(u, c).added[id] == Record(name, text, time, Ticks(before));
    Reachable(before + [c] + after);
    if id !in w.removed {
      Fate(w, id);
    }
  }

  /** Alerts come out by deadline, and for equal deadlines in the order of adding. */
  lemma AlertOrder(cs: seq<Command>, i: nat, j: nat)
    requires LegalRun(EMPTY, cs) && i < j < |Run(EMPTY, cs).fired|
    ensures var w := Run(EMPTY, cs);
            var a, b := w.fired[i], w.fired[j];
            && a.id < |w.added| && b.id < |w.added|
            && (w.added[a.id].Due() < w.added[b.id].Due()
                || (w.added[a.id].Due() == w.added[b.id].Due() && a.id < b.id))
  {
    Reachable(cs);
    var w := Run(EMPTY, cs);
    assert w.fired[i] in w.fired && w.fired[j] in w.fired;
  }

  // ---------- the queue of count-downs is a stable priority queue on deadlines ----------

  /** The plain form: which reminder is due when. */
  datatype Schedule = Schedule(now: nat, due: map<nat, int>)

  datatype Event =
    | Insert(id: nat, due: int)
    | Delete(id: nat)
    | Advance(out: seq<nat>)
    | Idle

  /** The priority queue on absolute deadlines: time advances by one, and what is due then comes out, oldest
      first, and is gone. */
  ghost predicate Next(s: Schedule, e: Event, t: Schedule) {
    match e
    case Insert(id, due) => id !in s.due && t == s.(due := s.due[id := due])
    case Delete(id) => id in s.due && t == s.(due := s.due - {id})
    case Advance(out) =>
      && Ascending(out)
      && (forall id :: id in out <==> id in s.due && s.due[id] == s.now + 1)
      && t == Schedule(s.now + 1, s.due - Elements(out))
    case Idle => t == s
  }

  function Deadlines(w: World): (s: Schedule)
    ensures s.now == w.now
  {
    Schedule(w.now, map id | id in Ids(w.store.queue) && id < |w.added| :: w.added[id].Due())
  }

  function EventOf(w: World, c: Command): (e: Event) {
    var accounts := w.store.accounts;
    match c
    case AddReminder(name, _, time, memory) =>
      if memory && FindUser(accounts, name) < |accounts| then Insert(|w.added|, w.now + time) else Idle
    case DropNotification(name, number) =>
      if HasNotification(w.store, name, number) then
        Delete(accounts[FindUser(accounts, name)].pending[number - 1])
      else Idle
    case Tick => Advance(FiredIds(Step(w, Tick).fired[|w.fired|..]))
    case _ => Idle
  }

  lemma DeadlineOf(w: World, e: Entry)
    requires Invariant(w) && e in w.store.queue
    ensures e.id in Deadlines(w).due && Deadlines(w).due[e.id] == w.now + e.time
  {
    var i :| 0 <= i < |w.store.queue| && w.store.queue[i] == e;
    assert Ids(w.store.queue)[i] == e.id;
  }

  lemma EntryOf(w: World, id: nat) returns (e: Entry)
    requires Invariant(w) && id in Deadlines(w).due
    ensures e in w.store.queue && e.id == id && Deadlines(w).due[id] == w.now + e.time
  {
    var i :| 0 <= i < |w.store.queue| && Ids(w.store.queue)[i] == id;
    e := w.store.queue[i];
    DeadlineOf(w, e);
  }

  lemma TickOutAre(w: World, v: World)
    requires Ticked(w, v)
    ensures v.now == w.now + 1 && |w.fired| <= |v.fired|
    ensures FiredIds(v.fired[|w.fired|..]) == Ids(Expiring(w.store.queue))
  {
  }

  lemma ExpiringAscending(q: seq<Entry>)
    requires Sorted(q)
    ensures Ascending(Ids(Expiring(q)))
  {
    var exp := Expiring(q);
    ExpiringSorted(q);
    forall i, j | 0 <= i < j < |exp| ensures Ids(exp)[i] < Ids(exp)[j] {
      assert exp[i] in exp && exp[j] in exp && Earlier(exp[i], exp[j]);
    }
  }

  lemma ExpiringDue(w: World, id: nat)
    requires Invariant(w)
    ensures var d := Deadlines(w).due;
            id in Ids(Expiring(w.store.queue)) <==> id in d && d[id] == w.now + 1
  {
    hide Invariant, Deadlines;
    var exp, d := Expiring(w.store.queue), Deadlines(w).due;
    if id in Ids(exp) {
      var i :| 0 <= i < |exp| && Ids(exp)[i] == id;
      assert exp[i] in exp;
      DeadlineOf(w, exp[i]);
    }
    if id in d && d[id] == w.now + 1 {
      var e := EntryOf(w, id);
      assert e in exp;
      var i :| 0 <= i < |exp| && exp[i] == e;
      assert Ids(exp)[i] == id;
    }
  }

  lemma QueueSorted(w: World)
    requires Invariant(w)
    ensures Sorted(w.store.queue)
  {
  }

  lemma TickOut(w: World, v: World)
    requires Invariant(w) && Ticked(w, v)
    ensures v.now == w.now + 1 && |w.fired| <= |v.fired|
    ensures var out, d := FiredIds(v.fired[|w.fired|..]), Deadlines(w).due;
            out == Ids(Expiring(w.store.queue)) && Ascending(out)
            && forall id :: id in out <==> id in d && d[id] == w.now + 1
  {
    hide Invariant, Ticked, Deadlines, Ascending, Sorted;
    TickOutAre(w, v);
    QueueSorted(w);
    ExpiringAscending(w.store.queue);
    forall id: nat ensures id in Ids(Expiring(w.store.queue)) <==>
                           id in Deadlines(w).due && Deadlines(w).due[id] == w.now + 1 {
      ExpiringDue(w, id);
    }
  }

  lemma TickLeft(w: World, v: World, id: nat)
    requires Invariant(w) && Invariant(v) && Ticked(w, v)
    ensures var d, d' := Deadlines(w).due, Deadlines(v).due;
            && (id in d' <==> id in d && d[id] != w.now + 1)
            && (id in d' ==> d'[id] == d[id])
  {
    var d, d' := Deadlines(w).due, Deadlines(v).due;
    NumbersDistinct(w);
    if id in d' {
      var x := EntryOf(v, id);
      var e :| e in w.store.queue && e.time != 1 && x == Counted(e);
      DeadlineOf(w, e);
    }
    if id in d && d[id] != w.now + 1 {
      var e := EntryOf(w, id);
      assert Counted(e) in Survivors(w.store.queue);
      DeadlineOf(v, Counted(e));
    }
  }

  lemma RefinesTick(w: World, v: World)
    requires Invariant(w) && Invariant(v) && Ticked(w, v)
    ensures Next(Deadlines(w), Advance(FiredIds(v.fired[|w.fired|..])), Deadlines(v))
  {
    hide Invariant, Ticked, Deadlines;
    TickOut(w, v);
    var d, d', out := Deadlines(w).due, Deadlines(v).due, FiredIds(v.fired[|w.fired|..]);
    forall id: nat ensures (id in d' <==> id in d && id !in out) && (id in d' ==> d'[id] == d[id]) {
      TickLeft(w, v, id);
    }
    assert d' == d - Elements(out);
  }

  lemma DeadlineKeys(w: World)
    requires Invariant(w)
    ensures forall id :: id in Deadlines(w).due <==> id in Ids(w.store.queue)
    ensures forall id | id in Ids(w.store.queue) :: id < |w.added|
  {
    var q := w.store.queue;
    forall id | id in Ids(q) ensures id < |w.added| {
      var i :| 0 <= i < |q| && Ids(q)[i] == id;
      assert q[i] in q;
    }
  }

  lemma RefinesAdd(w: World, v: World, k: nat, e: Entry)
    requires Invariant(w) && k <= |w.store.queue| && e.id == |w.added|
    requires v.store.queue == Inserted(w.store.queue, k, e) && v.now == w.now
    requires |v.added| == |w.added| + 1 && w.added <= v.added && v.added[e.id].Due() == w.now + e.time
    ensures Next(Deadlines(w), Insert(e.id, w.now + e.time), Deadlines(v))
  {
    hide Inserted, Invariant;
    DeadlineKeys(w);
    var ids := Ids(w.store.queue);
    IdsInserted(w.store.queue, k, e);
    InsertedElements(ids, k, e.id);
    assert Deadlines(v).due == Deadlines(w).due[e.id := w.now + e.time];
  }

  lemma IdsInserted(q: seq<Entry>, k: nat, e: Entry)
    requires k <= |q|
    ensures Ids(Inserted(q, k, e)) == Inserted(Ids(q), k, e.id)
  {
  }

  lemma NumbersApart(w: World)
    requires Invariant(w)
    ensures Distinct(Ids(w.store.queue))
  {
    NumbersDistinct(w);
  }

  lemma RefinesDrop(w: World, v: World, f: nat)
    requires Invariant(w) && f < |w.store.queue|
    requires v.store.queue == Removed(w.store.queue, f) && v.now == w.now && v.added == w.added
    ensures Next(Deadlines(w), Delete(w.store.queue[f].id), Deadlines(v))
  {
    hide Removed, Invariant;
    NumbersApart(w);
    DeadlineKeys(w);
    RemovedIds(w.store.queue, f);
    RemovedElements(Ids(w.store.queue), f);
    assert Deadlines(v).due == Deadlines(w).due - {w.store.queue[f].id};
  }

  /** Each step of the store is a step of the priority queue on absolute deadlines. */
  lemma Refines(w: World, c: Command)
    requires Invariant(w) && Legal(w, c)
    ensures Next(Deadlines(w), EventOf(w, c), Deadlines(Step(w, c)))
  {
    hide Invariant, Next;
    var v := Step(w, c);
    match c
    case AddReminder(name, text, time, memory) =>
      if memory && FindUser(w.store.accounts, name) < |w.store.accounts| {
        RefinesAdd(w, v, InsertPoint(w.store.queue, time), Entry(|w.added|, name, text, time));
      } else {
        RefinesIdle(w, v);
      }
    case DropNotification(name, number) =>
      if HasNotification(w.store, name, number) {
        var id := w.store.accounts[FindUser(w.store.accounts, name)].pending[number - 1];
        RefinesDrop(w, v, FindEntry(w.store.queue, id));
      } else {
        RefinesIdle(w, v);
      }
    case Tick =>
      TickStep(w);
      StepKeeps(w, Tick);
      RefinesTick(w, v);
    case _ => RefinesIdle(w, v);
  }

  lemma RefinesIdle(w: World, v: World)
    requires v.store.queue == w.store.queue && v.now == w.now && v.added == w.added
    ensures Next(Deadlines(w), Idle, Deadlines(v))
  {
  }

  // ---------- conservation ----------

  function TotalPending(accounts: seq<Account>): (n: nat) {
    if accounts == [] then 0 else |accounts[0].pending| + TotalPending(accounts[1..])
  }

  function OwnedBy(q: seq<Entry>, accounts: seq<Account>): (ids: set<nat>) {
    set e, a | e in q && a in accounts && e.owner == a.name :: e.id
  }

  /** The list of one user accounts for what it owns, and for nothing that another one owns. */
  lemma OwnedByFirst(q: seq<Entry>, a: Account, rest: seq<Account>)
    requires NamesDistinct([a] + rest) && forall e, f | e in q && f in q && e.id == f.id :: e == f
    requires forall id :: id in a.pending <==> Waits(q, id, a.name)
    ensures var own := Elements(a.pending);
            OwnedBy(q, [a] + rest) == own + OwnedBy(q, rest) && own !! OwnedBy(q, rest)
  {
    var own := Elements(a.pending);
    forall b | b in rest ensures b.name != a.name {
      var i :| 0 <= i < |rest| && rest[i] == b;
      assert ([a] + rest)[0] == a && ([a] + rest)[i + 1] == b;
    }
    forall id ensures id in OwnedBy(q, [a] + rest) <==> id in own || id in OwnedBy(q, rest) {
      if id in own {
        assert Waits(q, id, a.name);
      }
    }
  }

  lemma {:induction false} TotalIsOwned(q: seq<Entry>, accounts: seq<Account>)
    requires NamesDistinct(accounts) && forall e, f | e in q && f in q && e.id == f.id :: e == f
    requires forall a | a in accounts :: Ascending(a.pending)
    requires forall a, id | a in accounts :: id in a.pending <==> Waits(q, id, a.name)
    ensures TotalPending(accounts) == |OwnedBy(q, accounts)|
  {
    if accounts == [] {
      assert OwnedBy(q, []) == {};
    } else {
      var a, rest := accounts[0], accounts[1..];
      TotalIsOwned(q, rest);
      assert a in accounts && accounts == [a] + rest;
      DistinctCount(a.pending);
      OwnedByFirst(q, a, rest);
    }
  }

  /** Every reminder ever added is waiting, fired or removed; the total count, the queue length and the sum of
      the users' lists agree. */
  lemma Conservation(cs: seq<Command>)
    requires LegalRun(EMPTY, cs)
    ensures var w := Run(EMPTY, cs);
            && |w.added| == |w.fired| + |w.removed| + |w.store.queue|
            && TotalPending(w.store.accounts) == |w.store.queue|
  {
    Reachable(cs);
    var w := Run(EMPTY, cs);
    assert |multiset(Serials(|w.added|))| == |w.added|;
    NumbersDistinct(w);
    var q := w.store.queue;
    TotalIsOwned(q, w.store.accounts);
    DistinctCount(Ids(q));
    assert OwnedBy(q, w.store.accounts) == Elements(Ids(q)) by {
      forall e | e in q ensures e.id in Ids(q) {
        DeadlineOf(w, e);
      }
      forall id | id in Ids(q) ensures id in OwnedBy(q, w.store.accounts) {
        var i :| 0 <= i < |q| && Ids(q)[i] == id;
        assert q[i] in q;
      }
    }
  }

  /** Each waiting reminder is in the queue once, and on exactly one user's list, once: the list of its owner. */
  lemma OnOneList(cs: seq<Command>, i: nat)
    requires LegalRun(EMPTY, cs) && i < |Run(EMPTY, cs).store.queue|
    ensures var s := Run(EMPTY, cs).store;
            var e := s.queue[i];
            var k := FindUser(s.accounts, e.owner);
            && (forall j | 0 <= j < |s.queue| && j != i :: s.queue[j].id != e.id)
            && k < |s.accounts| && e.id in s.accounts[k].pending && Distinct(s.accounts[k].pending)
            && (forall j | 0 <= j < |s.accounts| && j != k :: e.id !in s.accounts[j].pending)
  {
    Reachable(cs);
    var w := Run(EMPTY, cs);
    var s, e := w.store, w.store.queue[i];
    NumbersDistinct(w);
    forall j | 0 <= j < |s.queue| && j != i ensures s.queue[j].id != e.id {
      assert Ids(s.queue)[j] != Ids(s.queue)[i];
    }
    var a :| a in s.accounts && a.name == e.owner;
    var n :| 0 <= n < |s.accounts| && s.accounts[n] == a;
    var k := FindUser(s.accounts, e.owner);
    assert s.accounts[k] in s.accounts && Waits(s.queue, e.id, e.owner);
    forall j | 0 <= j < |s.accounts| && j != k ensures e.id !in s.accounts[j].pending {
      assert s.accounts[j] in s.accounts && s.accounts[j].name != s.accounts[k].name;
      assert forall f | f in s.queue && f.id == e.id :: f == e;
    }
  }

  /** Removing by number takes out the n-th reminder of that user, and only that one; a number out of range
      takes out nothing. */
  lemma RemovesTheNth(w: World, name: string, number: int)
    requires Invariant(w)
    ensures var s, t := w.store, RemoveUserNotification(w.store, name, number);
            var k := FindUser(s.accounts, name);
            if k < |s.accounts| && 1 <= number <= |s.accounts[k].pending| then
              var p := s.accounts[k].pending;
              exists f: nat ::
                && f < |s.queue| && s.queue[f].id == p[number - 1] && s.queue[f].owner == name
                && t.queue == s.queue[..f] + s.queue[f + 1..]
                && t.accounts == s.accounts[k := Account(name, p[..number - 1] + p[number..])]
            else t == s
  {
    var s := w.store;
    var k := FindUser(s.accounts, name);
    if k < |s.accounts| && 1 <= number <= |s.accounts[k].pending| {
      var a, id := s.accounts[k], s.accounts[k].pending[number - 1];
      assert a in s.accounts && id in a.pending;
      var e :| e in s.queue && e.id == id && e.owner == name;
      var i :| 0 <= i < |s.queue| && s.queue[i] == e;
      assert FindEntry(s.queue, id) <= i;
      RemovedEntry(w, name, number);
    }
  }

  /** What the two removals change of a run: the numbers taken out are noted, and time, additions and alerts stay. */
  lemma DropMeans(w: World, name: string, k: nat, number: int)
    requires Invariant(w) && k < |w.store.accounts| && w.store.accounts[k].name == name
    ensures var v, p := Step(w, DropNotification(name, number)), w.store.accounts[k].pending;
            && v.now == w.now && v.added == w.added && v.fired == w.fired
            && v.removed == w.removed + if 1 <= number <= |p| then [p[number - 1]] else []
    ensures var v := Step(w, DropUser(name));
            && v.now == w.now && v.added == w.added && v.fired == w.fired && v.removed == w.removed
            && v.store.queue == w.store.queue
            && forall a :: a in v.store.accounts <==> a in w.store.accounts && a.name != name
  {
    assert FindUser(w.store.accounts, name) == k;
    RemovesTheNth(w, name, number);
    var p := w.store.accounts[k].pending;
    if 1 <= number <= |p| {
      var f: nat :| f < |w.store.queue| && w.store.queue[f].id == p[number - 1];
      assert FindEntry(w.store.queue, p[number - 1]) <= f;
    }
  }
}
