/** Whole runs of the reminder store: any sequence of its operations, with the history a user would keep.

The count-down queue is proved to be a stable priority queue on absolute deadlines, and every reminder to
have exactly one fate.  */
module ReminderRuns {
  import opened Sequences
  import opened ReminderModel

  /** `memory` says whether the allocations of that call succeed. */
  datatype Command =
    | AddUser(name: string, memory: bool)
    | AddReminder(name: string, text: string, time: int, memory: bool)
    | DropUser(name: string)
    | DropNotification(name: string, number: int)
    | Tick

  /** A reminder as it was added, after `at` ticks. */
  datatype Record = Record(owner: string, text: string, time: int, at: nat) {
    function Due(): int { at + time }
  }

  /** An alert that went off on tick number `at`. */
  datatype Alert = Alert(id: nat, text: string, at: nat)

  datatype World = World(store: Content, now: nat, added: seq<Record>, fired: seq<Alert>, removed: seq<nat>)

  const EMPTY := World(Content([], []), 0, [], [], [])

  function Alerts(entries: seq<Entry>, at: nat): (a: seq<Alert>)
    ensures |a| == |entries|
  {
    seq(|entries|, i requires 0 <= i < |entries| => Alert(entries[i].id, entries[i].text, at))
  }

  function Step(w: World, c: Command): (v: World) {
    match c
    case AddUser(name, memory) =>
      if memory then w.(store := AddNewUser(w.store, name)) else w
    case AddReminder(name, text, time, memory) =>
      if memory && FindUser(w.store.accounts, name) < |w.store.accounts| then
        w.(store := AddUserReminder(w.store, name, text, time, |w.added|),
           added := w.added + [Record(name, text, time, w.now)])
      else w
    case DropUser(name) =>
      w.(store := w.store.(accounts := RemoveUser(w.store.accounts, name)))
    case DropNotification(name, number) =>
      if HasNotification(w.store, name, number) then
        w.(store := RemoveUserNotification(w.store, name, number),
           removed := w.removed + [w.store.accounts[FindUser(w.store.accounts, name)].pending[number - 1]])
      else w
    case Tick =>
      var r := TickFrom(w.store, 0);
      w.(store := r.0, now := w.now + 1, fired := w.fired + Alerts(r.1, w.now + 1))
  }

  /** A user may only be removed when it waits for no reminder: the code frees it, and the queue would keep
      referring to it. */
  predicate Legal(w: World, c: Command) {
    c.DropUser? ==> forall a | a in w.store.accounts && a.name == c.name :: a.pending == []
  }

  function Run(w: World, cs: seq<Command>): (v: World)
    decreases cs
  {
    if cs == [] then w else Run(Step(w, cs[0]), cs[1..])
  }

  predicate LegalRun(w: World, cs: seq<Command>)
    decreases cs
  {
    cs != [] ==> Legal(w, cs[0]) && LegalRun(Step(w, cs[0]), cs[1..])
  }

  // ---------- the invariant ----------

  ghost predicate NamesDistinct(accounts: seq<Account>) {
    forall i, j | 0 <= i < j < |accounts| :: accounts[i].name != accounts[j].name
  }

  /** Shorter waits first; equal waits in the order of adding. */
  ghost predicate Sorted(q: seq<Entry>) {
    forall i, j | 0 <= i < j < |q| :: Earlier(q[i], q[j])
  }

  predicate Earlier(e: Entry, f: Entry) {
    e.time < f.time || (e.time == f.time && e.id < f.id)
  }

  ghost predicate Ascending(p: seq<nat>) {
    forall i, j | 0 <= i < j < |p| :: p[i] < p[j]
  }

  ghost predicate Waits(q: seq<Entry>, id: nat, owner: string) {
    exists e :: e in q && e.id == id && e.owner == owner
  }

  /** The users' lists and the queue hold the same reminders, each under its owner, in add order. */
  ghost predicate Agree(s: Content) {
    && (forall a, id | a in s.accounts :: id in a.pending <==> Waits(s.queue, id, a.name))
    && (forall a | a in s.accounts :: Ascending(a.pending))
    && (forall e | e in s.queue :: exists a :: a in s.accounts && a.name == e.owner)
  }

  /** Every waiting entry is a reminder that was added, and counts down to its deadline. */
  ghost predicate CountsDown(w: World) {
    && (forall e | e in w.store.queue :: e.id < |w.added| &&
          var r := w.added[e.id];
          r.owner == e.owner && r.text == e.text && r.Due() == w.now + e.time && (r.time > 0 <==> e.time > 0))
    && (forall r | r in w.added :: r.at <= w.now)
  }

  ghost predicate FiredOnTime(w: World) {
    && (forall a | a in w.fired :: a.id < |w.added| && a.at <= w.now &&
          var r := w.added[a.id]; r.text == a.text && r.Due() == a.at && r.time > 0)
    && (forall i, j | 0 <= i < j < |w.fired| ::
          w.fired[i].at < w.fired[j].at || (w.fired[i].at == w.fired[j].at && w.fired[i].id < w.fired[j].id))
  }

  function Ids(q: seq<Entry>): (ids: seq<nat>)
    ensures |ids| == |q|
  {
    seq(|q|, i requires 0 <= i < |q| => q[i].id)
  }

  function FiredIds(f: seq<Alert>): (ids: seq<nat>)
    ensures |ids| == |f|
  {
    seq(|f|, i requires 0 <= i < |f| => f[i].id)
  }

  function Serials(n: nat): (ids: seq<nat>)
    ensures |ids| == n
  {
    seq(n, i => i)
  }

  /** Each reminder ever added is waiting, fired or removed: exactly one of the three, once. */
  ghost predicate OneFate(w: World) {
    multiset(Serials(|w.added|)) == multiset(Ids(w.store.queue)) + multiset(FiredIds(w.fired)) + multiset(w.removed)
  }

  ghost predicate Invariant(w: World) {
    && NamesDistinct(w.store.accounts) && Sorted(w.store.queue) && Agree(w.store)
    && CountsDown(w) && FiredOnTime(w) && OneFate(w)
  }

  // ---------- each kind of step keeps the invariant ----------

  lemma {:induction false} SerialsOnce(n: nat, id: nat)
    ensures multiset(Serials(n))[id] == if id < n then 1 else 0
  {
    if n > 0 {
      SerialsOnce(n - 1, id);
      assert Serials(n) == Serials(n - 1) + [n - 1];
    }
  }

  lemma OnceMeansDistinct(s: seq<nat>)
    requires forall x: nat :: multiset(s)[x] <= 1
    ensures Distinct(s)
  {
    forall i, j | 0 <= i < j < |s| ensures s[i] != s[j] {
      assert s == s[..j] + [s[j]] + s[j + 1..];
      assert multiset(s)[s[j]] == multiset(s[..j])[s[j]] + 1 + multiset(s[j + 1..])[s[j]];
      assert s[..j][i] == s[i] && s[j] !in s[..j];
    }
  }

  lemma FateOf(w: World, id: nat)
    requires OneFate(w)
    ensures multiset(Ids(w.store.queue))[id] + multiset(FiredIds(w.fired))[id] + multiset(w.removed)[id]
            == if id < |w.added| then 1 else 0
  {
    SerialsOnce(|w.added|, id);
  }

  /** No two waiting entries have the same number, and none is fired twice. */
  lemma NumbersDistinct(w: World)
    requires OneFate(w)
    ensures Distinct(Ids(w.store.queue)) && Distinct(FiredIds(w.fired))
    ensures forall e, f | e in w.store.queue && f in w.store.queue && e.id == f.id :: e == f
  {
    forall id: nat ensures multiset(Ids(w.store.queue))[id] <= 1 && multiset(FiredIds(w.fired))[id] <= 1 {
      FateOf(w, id);
    }
    var q := w.store.queue;
    OnceMeansDistinct(Ids(q));
    OnceMeansDistinct(FiredIds(w.fired));
    forall e, f | e in q && f in q && e.id == f.id ensures e == f {
      var i :| 0 <= i < |q| && q[i] == e;
      var j :| 0 <= j < |q| && q[j] == f;
      assert Ids(q)[i] == Ids(q)[j];
    }
  }

  lemma NewAccounts(accounts: seq<Account>, k: nat, a: Account)
    requires NamesDistinct(accounts) && k < |accounts| && a.name == accounts[k].name
    ensures NamesDistinct(accounts[k := a])
    ensures forall b :: b in accounts[k := a] <==> b == a || (b in accounts && b.name != a.name)
  {
    forall b ensures b in accounts[k := a] <==> b == a || (b in accounts && b.name != a.name) {
      if b in accounts && b.name != a.name {
        var i :| 0 <= i < |accounts| && accounts[i] == b;
        assert accounts[k := a][i] == b;
      }
      assert accounts[k := a][k] == a;
    }
  }

  lemma AddUserKeeps(w: World, name: string, memory: bool)
    requires Invariant(w)
    ensures Invariant(Step(w, AddUser(name, memory)))
  {
    var s, t := w.store, AddNewUser(w.store, name);
    if s != t {
      forall e | e in s.queue ensures e.owner != name && exists b :: b in t.accounts && b.name == e.owner {
        var b :| b in s.accounts && b.name == e.owner;
        assert b in t.accounts;
      }
    }
  }

  lemma SortedInserted(q: seq<Entry>, e: Entry)
    requires Sorted(q) && forall f | f in q :: f.id < e.id
    ensures Sorted(Inserted(q, InsertPoint(q, e.time), e))
  {
    hide Inserted;
    var k := InsertPoint(q, e.time);
    var t := Inserted(q, k, e);
    forall i, j | 0 <= i < j < |t| ensures Earlier(t[i], t[j]) {
      InsertedAt(q, k, e, i);
      InsertedAt(q, k, e, j);
      if j > k {
        assert q[k].time > e.time && (k < j - 1 ==> Earlier(q[k], q[j - 1]));
      }
    }
  }

  lemma AddReminderKeepsOrder(w: World, e: Entry)
    requires Invariant(w) && e.id == |w.added|
    ensures Sorted(Inserted(w.store.queue, InsertPoint(w.store.queue, e.time), e))
  {
    hide Sorted, Agree, FiredOnTime, OneFate, NamesDistinct, Inserted;
    SortedInserted(w.store.queue, e);
  }

  lemma CountsDownWith(w: World, v: World, k: nat, e: Entry)
    requires CountsDown(w) && k <= |w.store.queue| && v.store.queue == Inserted(w.store.queue, k, e)
    requires e.id == |w.added| && v.now == w.now && v.added == w.added + [Record(e.owner, e.text, e.time, w.now)]
    ensures CountsDown(v)
  {
    hide Inserted;
    InsertedElements(w.store.queue, k, e);
  }

  lemma FiredOnTimeWith(w: World, v: World, r: Record)
    requires FiredOnTime(w) && v.now == w.now && v.added == w.added + [r] && v.fired == w.fired
    ensures FiredOnTime(v)
  {
  }

  lemma AddReminderKeepsQueue(w: World, name: string, text: string, time: int)
    requires Invariant(w) && FindUser(w.store.accounts, name) < |w.store.accounts|
    ensures var v := Step(w, AddReminder(name, text, time, true));
            Sorted(v.store.queue) && CountsDown(v) && FiredOnTime(v)
  {
    hide Sorted, CountsDown, FiredOnTime, Agree, OneFate, NamesDistinct, Inserted;
    var e, v := Entry(|w.added|, name, text, time), Step(w, AddReminder(name, text, time, true));
    AddReminderKeepsOrder(w, e);
    CountsDownWith(w, v, InsertPoint(w.store.queue, time), e);
    FiredOnTimeWith(w, v, Record(name, text, time, w.now));
  }

  lemma AddReminderKeepsFates(w: World, name: string, text: string, time: int)
    requires OneFate(w) && FindUser(w.store.accounts, name) < |w.store.accounts|
    ensures OneFate(Step(w, AddReminder(name, text, time, true)))
  {
    var v := Step(w, AddReminder(name, text, time, true));
    var q, k := w.store.queue, InsertPoint(w.store.queue, time);
    assert Ids(v.store.queue) == Inserted(Ids(q), k, |w.added|);
    InsertedElements(Ids(q), k, |w.added|);
    assert Serials(|v.added|) == Serials(|w.added|) + [|w.added|];
  }

  lemma WaitsInserted(q: seq<Entry>, k: nat, e: Entry)
    requires k <= |q|
    ensures forall n, owner ::
              Waits(Inserted(q, k, e), n, owner) <==> Waits(q, n, owner) || (n == e.id && owner == e.owner)
  {
    InsertedElements(q, k, e);
    assert e in Inserted(q, k, e);
  }

  lemma AscendingAppended(p: seq<nat>, n: nat)
    requires Ascending(p) && forall m | m in p :: m < n
    ensures Ascending(p + [n])
  {
    forall i | 0 <= i < |p| ensures p[i] < n {
      assert p[i] in p;
    }
  }

  lemma AddReminderKeepsLists(w: World, name: string, text: string, time: int)
    requires Invariant(w) && FindUser(w.store.accounts, name) < |w.store.accounts|
    ensures var v := Step(w, AddReminder(name, text, time, true));
            NamesDistinct(v.store.accounts) && Agree(v.store)
  {
    var s, t := w.store, Step(w, AddReminder(name, text, time, true)).store;
    var k, id := FindUser(s.accounts, name), |w.added|;
    var was, e := s.accounts[k], Entry(id, name, text, time);
    var a := Account(name, was.pending + [id]);
    NewAccounts(s.accounts, k, a);
    WaitsInserted(s.queue, InsertPoint(s.queue, time), e);
    assert was in s.accounts;
    forall n | n in was.pending ensures n < id {
      assert Waits(s.queue, n, name);
    }
    AscendingAppended(was.pending, id);
    forall b, n | b in t.accounts ensures n in b.pending <==> Waits(t.queue, n, b.name) {
    }
    InsertedElements(s.queue, InsertPoint(s.queue, time), e);
    forall f | f in t.queue ensures exists b :: b in t.accounts && b.name == f.owner {
      var b :| (b in s.accounts || b == a) && b.name == f.owner;
      assert (if b.name == name then a else b) in t.accounts;
    }
  }

  /** The places of the users that have another name, in order. */
  function KeptPlaces(accounts: seq<Account>, name: string): (kept: seq<nat>)
    ensures forall k: nat :: k in kept <==> k < |accounts| && accounts[k].name != name
  {
    if accounts == [] then []
    else
      KeptPlaces(accounts[..|accounts| - 1], name)
      + if accounts[|accounts| - 1].name == name then [] else [|accounts| - 1]
  }

  lemma {:induction false} RemoveUserNext(accounts: seq<Account>, a: Account, name: string)
    ensures RemoveUser(accounts + [a], name) == RemoveUser(accounts, name) + if a.name == name then [] else [a]
  {
    if accounts == [] {
      assert ([] + [a])[1..] == [];
    } else {
      assert (accounts + [a])[1..] == accounts[1..] + [a];
      RemoveUserNext(accounts[1..], a, name);
    }
  }

  lemma {:induction false} KeptInOrder(accounts: seq<Account>, name: string)
    ensures Ascending(KeptPlaces(accounts, name))
  {
    if accounts != [] {
      var front := KeptPlaces(accounts[..|accounts| - 1], name);
      KeptInOrder(accounts[..|accounts| - 1], name);
      assert forall i | 0 <= i < |front| :: front[i] in front;
    }
  }

  /** The users at the places of a list. */
  ghost predicate Picks(accounts: seq<Account>, places: seq<nat>, t: seq<Account>) {
    |places| == |t| && forall i | 0 <= i < |t| :: places[i] < |accounts| && t[i] == accounts[places[i]]
  }

  lemma PicksNext(accounts: seq<Account>, places: seq<nat>, t: seq<Account>, a: Account)
    requires Picks(accounts, places, t)
    ensures Picks(accounts + [a], places, t) && Picks(accounts + [a], places + [|accounts|], t + [a])
  {
  }

  /** The users that stay are those of another name at their places in order: none is doubled, lost or moved. */
  lemma {:induction false} RemoveUserKeepsOrder(accounts: seq<Account>, name: string)
    ensures var kept := KeptPlaces(accounts, name);
            Ascending(kept) && Picks(accounts, kept, RemoveUser(accounts, name))
  {
    hide RemoveUser, Picks, Ascending;
    KeptInOrder(accounts, name);
    if accounts == [] {
      NoUsers(name);
    } else {
      var front, a := accounts[..|accounts| - 1], accounts[|accounts| - 1];
      assert accounts == front + [a];
      RemoveUserKeepsOrder(front, name);
      RemoveUserNext(front, a, name);
      PicksNext(front, KeptPlaces(front, name), RemoveUser(front, name), a);
      assert RemoveUser(front, name) + [] == RemoveUser(front, name);
      assert KeptPlaces(front, name) + [] == KeptPlaces(front, name);
    }
  }

  lemma NoUsers(name: string)
    ensures RemoveUser([], name) == [] && Picks([], [], [])
  {
  }

  lemma {:induction false} RemoveUserKeepsNames(accounts: seq<Account>, name: string)
    requires NamesDistinct(accounts)
    ensures NamesDistinct(RemoveUser(accounts, name))
  {
    if accounts != [] {
      var rest := accounts[1..];
      RemoveUserKeepsNames(rest, name);
      forall a | a in RemoveUser(rest, name) ensures a.name != accounts[0].name {
        var i :| 0 <= i < |rest| && rest[i] == a;
        assert accounts[i + 1] == a;
      }
    }
  }

  lemma DropUserKeeps(w: World, name: string)
    requires Invariant(w) && Legal(w, DropUser(name))
    ensures Invariant(Step(w, DropUser(name)))
  {
    var s, t := w.store, Step(w, DropUser(name)).store;
    RemoveUserKeepsNames(s.accounts, name);
    forall e | e in s.queue ensures exists a :: a in t.accounts && a.name == e.owner {
      var a :| a in s.accounts && a.name == e.owner;
      assert Waits(s.queue, e.id, a.name);
      assert e.id in a.pending;
      assert a in t.accounts;
    }
  }

  /** What a removal by number takes out: one waiting entry of that user. */
  lemma RemovedEntry(w: World, name: string, number: int)
    requires Invariant(w) && HasNotification(w.store, name, number)
    ensures var s := w.store;
            var a := s.accounts[FindUser(s.accounts, name)];
            var f := FindEntry(s.queue, a.pending[number - 1]);
            && a in s.accounts && s.queue[f] in s.queue
            && s.queue[f].id == a.pending[number - 1] && s.queue[f].owner == name
            && forall e | e in s.queue && e.id == a.pending[number - 1] :: e == s.queue[f]
  {
    NumbersDistinct(w);
    var s := w.store;
    var a := s.accounts[FindUser(s.accounts, name)];
    assert a in s.accounts && a.pending[number - 1] in a.pending;
    assert Waits(s.queue, a.pending[number - 1], name);
  }

  lemma SortedRemoved(q: seq<Entry>, f: nat)
    requires Sorted(q) && f < |q|
    ensures Sorted(Removed(q, f))
  {
    hide Removed;
    var t := Removed(q, f);
    forall i, j | 0 <= i < j < |t| ensures Earlier(t[i], t[j]) {
      RemovedAt(q, f, i);
      RemovedAt(q, f, j);
    }
  }

  lemma DropNotificationKeepsQueue(w: World, name: string, number: int)
    requires Invariant(w) && HasNotification(w.store, name, number)
    ensures var v := Step(w, DropNotification(name, number));
            Sorted(v.store.queue) && CountsDown(v) && FiredOnTime(v)
  {
    var id := w.store.accounts[FindUser(w.store.accounts, name)].pending[number - 1];
    var f := FindEntry(w.store.queue, id);
    SortedRemoved(w.store.queue, f);
    RemovedElementsOnly(w.store.queue, f);
  }

  /** What leaves the queue `q` may turn up in either of the two other places. */
  lemma Moved(q: multiset<nat>, left: multiset<nat>, moved: multiset<nat>, f: multiset<nat>, r: multiset<nat>)
    requires q == left + moved
    ensures q + f + r == left + (f + moved) + r && q + f + r == left + f + (r + moved)
  {
  }

  lemma DropNotificationKeepsFates(w: World, v: World, f: nat)
    requires OneFate(w) && f < |w.store.queue|
    requires v.store.queue == Removed(w.store.queue, f) && v.removed == w.removed + [w.store.queue[f].id]
    requires v.added == w.added && v.fired == w.fired
    ensures OneFate(v)
  {
    hide Removed;
    var ids := Ids(w.store.queue);
    RemovedIds(w.store.queue, f);
    RemovedElements(ids, f);
    Moved(multiset(ids), multiset(Ids(v.store.queue)), multiset{ids[f]},
          multiset(FiredIds(w.fired)), multiset(w.removed));
  }

  lemma RemovedIds(q: seq<Entry>, f: nat)
    requires f < |q|
    ensures Ids(Removed(q, f)) == Removed(Ids(q), f)
  {
  }

  lemma RemovedElementsOnly<T>(s: seq<T>, i: nat)
    requires i < |s|
    ensures forall y | y in Removed(s, i) :: y in s
  {
  }

  lemma DropNotificationKeepsLists(w: World, name: string, number: int)
    requires Invariant(w) && HasNotification(w.store, name, number)
    ensures var t := Step(w, DropNotification(name, number)).store;
            NamesDistinct(t.accounts) && Agree(t)
  {
    hide Removed;
    var s, t := w.store, Step(w, DropNotification(name, number)).store;
    var k := FindUser(s.accounts, name);
    var was := s.accounts[k];
    var id := was.pending[number - 1];
    var f := FindEntry(s.queue, id);
    var a := Account(name, Removed(was.pending, number - 1));
    NumbersDistinct(w);
    RemovedEntry(w, name, number);
    DistinctQueue(w);
    NewAccounts(s.accounts, k, a);
    RemovedElements(s.queue, f);
    RemovedElements(was.pending, number - 1);
    AscendingRemoved(was.pending, number - 1);
    forall b, n | b in t.accounts ensures n in b.pending <==> Waits(t.queue, n, b.name) {
      if Waits(s.queue, n, b.name) {
        var e :| e in s.queue && e.id == n && e.owner == b.name;
        assert n != id ==> e in t.queue;
      }
    }
    forall e | e in t.queue ensures exists b :: b in t.accounts && b.name == e.owner {
      var b :| b in s.accounts && b.name == e.owner;
      assert (if b.name == name then a else b) in t.accounts;
    }
  }

  lemma DistinctQueue(w: World)
    requires OneFate(w)
    ensures Distinct(w.store.queue)
  {
    NumbersDistinct(w);
    var q := w.store.queue;
    forall i, j | 0 <= i < j < |q| ensures q[i] != q[j] {
      assert Ids(q)[i] != Ids(q)[j];
    }
  }

  lemma AscendingRemoved(p: seq<nat>, i: nat)
    requires Ascending(p) && i < |p|
    ensures Distinct(p) && Ascending(Removed(p, i))
  {
  }

  lemma SortedTail(q: seq<Entry>)
    requires Sorted(q) && q != []
    ensures Sorted(q[1..]) && forall x | x in q[1..] :: Earlier(q[0], x)
  {
    forall x | x in q[1..] ensures Earlier(q[0], x) {
      var j :| 0 <= j < |q| - 1 && q[1..][j] == x;
      assert q[j + 1] == x;
    }
  }

  lemma SortedCons(e: Entry, t: seq<Entry>)
    requires Sorted(t) && forall x | x in t :: Earlier(e, x)
    ensures Sorted([e] + t)
  {
    forall j | 0 <= j < |t| ensures Earlier(e, t[j]) {
      assert t[j] in t;
    }
  }

  lemma {:induction false} SurvivorsSorted(q: seq<Entry>)
    requires Sorted(q)
    ensures Sorted(Survivors(q))
  {
    if q != [] {
      SortedTail(q);
      SurvivorsSorted(q[1..]);
      if q[0].time != 1 {
        SortedCons(Counted(q[0]), Survivors(q[1..]));
      }
    }
  }

  lemma {:induction false} ExpiringSorted(q: seq<Entry>)
    requires Sorted(q)
    ensures Sorted(Expiring(q))
  {
    if q != [] {
      SortedTail(q);
      ExpiringSorted(q[1..]);
      if q[0].time == 1 {
        SortedCons(q[0], Expiring(q[1..]));
      }
    }
  }

  lemma IdsCons(e: Entry, q: seq<Entry>)
    ensures multiset(Ids([e] + q)) == multiset{e.id} + multiset(Ids(q))
  {
    assert Ids([e] + q) == [e.id] + Ids(q);
  }

  lemma {:induction false} TickIds(q: seq<Entry>)
    ensures multiset(Ids(q)) == multiset(Ids(Survivors(q))) + multiset(Ids(Expiring(q)))
  {
    if q != [] {
      var rest := q[1..];
      TickIds(rest);
      assert q == [q[0]] + rest;
      IdsCons(q[0], rest);
      if q[0].time == 1 {
        IdsCons(q[0], Expiring(rest));
      } else {
        IdsCons(Counted(q[0]), Survivors(rest));
      }
    }
  }

  lemma {:induction false} DroppedAscending(p: seq<nat>, ids: set<nat>)
    requires Ascending(p)
    ensures Ascending(Dropped(p, ids))
  {
    if p != [] {
      DroppedAscending(p[1..], ids);
      var t := Dropped(p[1..], ids);
      forall i | 0 <= i < |t| ensures p[0] < t[i] {
        assert t[i] in t;
        var j :| 0 <= j < |p[1..]| && p[1..][j] == t[i];
        assert p[j + 1] == t[i];
      }
    }
  }

  /** A tick in terms of the survivors and the entries that go off. */
  ghost predicate Ticked(w: World, v: World) {
    var q := w.store.queue;
    && v.store == Content(AllDropped(w.store.accounts, Expiring(q)), Survivors(q))
    && v.now == w.now + 1 && v.added == w.added && v.removed == w.removed
    && v.fired == w.fired + Alerts(Expiring(q), w.now + 1)
  }

  lemma TickStep(w: World)
    ensures Ticked(w, Step(w, Tick))
  {
    TickIs(w.store, 0);
    assert w.store.queue[0..] == w.store.queue && w.store.queue[..0] == [];
  }

  lemma TickKeepsQueue(w: World, v: World)
    requires Invariant(w) && Ticked(w, v)
    ensures Sorted(v.store.queue) && CountsDown(v)
  {
    SurvivorsSorted(w.store.queue);
  }

  lemma TickAlerts(w: World, v: World, i: nat)
    requires Invariant(w) && Ticked(w, v) && |w.fired| <= i < |v.fired|
    ensures v.fired[i].at == v.now && v.fired[i].id < |v.added|
    ensures var r := v.added[v.fired[i].id]; r.Due() == v.now && r.text == v.fired[i].text && r.time > 0
  {
    var e := Expiring(w.store.queue)[i - |w.fired|];
    assert e in Expiring(w.store.queue);
    assert v.fired[i] == Alert(e.id, e.text, v.now);
    assert w.added[e.id] in w.added;
  }

  lemma TickKeepsFired(w: World, v: World)
    requires Invariant(w) && Ticked(w, v)
    ensures FiredOnTime(v)
  {
    var n, exp := |w.fired|, Expiring(w.store.queue);
    ExpiringSorted(w.store.queue);
    forall i | 0 <= i < |v.fired|
      ensures v.fired[i].id < |v.added| && (if i < n then v.fired[i].at < v.now else v.fired[i].at == v.now)
      ensures var r := v.added[v.fired[i].id]; r.text == v.fired[i].text && r.Due() == v.fired[i].at && r.time > 0
    {
      if i < n {
        assert v.fired[i] == w.fired[i] && w.fired[i] in w.fired;
      } else {
        TickAlerts(w, v, i);
      }
    }
    forall i, j | n <= i < j < |v.fired| ensures v.fired[i].id < v.fired[j].id {
      assert exp[i - n] in exp && exp[j - n] in exp && Earlier(exp[i - n], exp[j - n]);
    }
  }

  lemma TickKeepsFates(w: World, v: World)
    requires OneFate(w) && Ticked(w, v)
    ensures OneFate(v)
  {
    var q := w.store.queue;
    TickIds(q);
    assert FiredIds(v.fired) == FiredIds(w.fired) + Ids(Expiring(q));
    Moved(multiset(Ids(q)), multiset(Ids(Survivors(q))), multiset(Ids(Expiring(q))),
          multiset(FiredIds(w.fired)), multiset(w.removed));
  }

  lemma TickKeepsLists(w: World, v: World)
    requires Invariant(w) && Ticked(w, v)
    ensures NamesDistinct(v.store.accounts) && Agree(v.store)
  {
    var s, t, q := w.store, v.store, w.store.queue;
    forall i | 0 <= i < |s.accounts|
      ensures var b := t.accounts[i];
              && b.name == s.accounts[i].name && Ascending(b.pending)
              && forall n :: n in b.pending <==> Waits(t.queue, n, b.name)
    {
      var a := s.accounts[i];
      assert a in s.accounts;
      DroppedAscending(a.pending, OwnIds(Expiring(q), a.name));
      forall n ensures n in t.accounts[i].pending <==> Waits(t.queue, n, a.name) {
        SurvivorWaits(w, n, a.name);
      }
    }
    forall e | e in t.queue ensures exists b :: b in t.accounts && b.name == e.owner {
      var f :| f in q && f.time != 1 && e == Counted(f);
      var a :| a in s.accounts && a.name == f.owner;
      var i :| 0 <= i < |s.accounts| && s.accounts[i] == a;
      assert t.accounts[i] in t.accounts;
    }
  }

  lemma SurvivorWaits(w: World, n: nat, owner: string)
    requires OneFate(w)
    ensures var q := w.store.queue;
            Waits(Survivors(q), n, owner) <==> Waits(q, n, owner) && n !in OwnIds(Expiring(q), owner)
  {
    NumbersDistinct(w);
    var q := w.store.queue;
    if Waits(Survivors(q), n, owner) {
      var x :| x in Survivors(q) && x.id == n && x.owner == owner;
      var e :| e in q && e.time != 1 && x == Counted(e);
    }
    if Waits(q, n, owner) && n !in OwnIds(Expiring(q), owner) {
      var e :| e in q && e.id == n && e.owner == owner;
      assert e.time != 1;
      assert Counted(e) in Survivors(q);
    }
  }

  lemma StepKeeps(w: World, c: Command)
    requires Invariant(w) && Legal(w, c)
    ensures Invariant(Step(w, c))
  {
    match c
    case AddUser(name, memory) => AddUserKeeps(w, name, memory);
    case AddReminder(name, text, time, memory) =>
      if memory && FindUser(w.store.accounts, name) < |w.store.accounts| {
        AddReminderKeepsQueue(w, name, text, time);
        AddReminderKeepsFates(w, name, text, time);
        AddReminderKeepsLists(w, name, text, time);
      }
    case DropUser(name) => DropUserKeeps(w, name);
    case DropNotification(name, number) =>
      if HasNotification(w.store, name, number) {
        DropNotificationKeepsQueue(w, name, number);
        var id := w.store.accounts[FindUser(w.store.accounts, name)].pending[number - 1];
        DropNotificationKeepsFates(w, Step(w, c), FindEntry(w.store.queue, id));
        DropNotificationKeepsLists(w, name, number);
      }
    case Tick =>
      TickStep(w);
      TickKeepsQueue(w, Step(w, Tick));
      TickKeepsFired(w, Step(w, Tick));
      TickKeepsFates(w, Step(w, Tick));
      TickKeepsLists(w, Step(w, Tick));
  }

  /** Removing a user keeps the state in order exactly if no user of that name waits for a reminder: otherwise the queue
      holds a reminder whose owner is gone. */
  lemma DropUserKeepsIff(w: World, name: string)
    requires Invariant(w)
    ensures Invariant(Step(w, DropUser(name))) <==> Legal(w, DropUser(name))
  {
    if Legal(w, DropUser(name)) {
      DropUserKeeps(w, name);
    } else {
      var a :| a in w.store.accounts && a.name == name && a.pending != [];
      assert a.pending[0] in a.pending;
      assert Waits(w.store.queue, a.pending[0], name);
      var e :| e in w.store.queue && e.owner == name;
      assert forall b | b in Step(w, DropUser(name)).store.accounts :: b.name != e.owner;
    }
  }

  lemma AddFirstUser(name: string)
    ensures Step(EMPTY, AddUser(name, true)) == EMPTY.(store := Content([Account(name, [])], []))
  {
  }

  lemma AddFirstReminder(w: World, name: string, text: string, time: int)
    requires w == EMPTY.(store := Content([Account(name, [])], []))
    ensures Step(w, AddReminder(name, text, time, true)).store
         == Content([Account(name, [0])], [Entry(0, name, text, time)])
  {
    var a, b := Account(name, []), Account(name, [0]);
    assert FindUser([a], name) == 0 && InsertPoint([], time) == 0;
    assert [a][0 := b] == [b] && [] + [0] == [0];
  }

  lemma RunOfTwo(w: World, a: Command, b: Command)
    ensures Run(w, [a, b]) == Step(Step(w, a), b)
  {
    hide Step;
    assert [a, b][1..] == [b] && [b][1..] == [];
    assert Run(w, [a, b]) == Run(Step(w, a), [b]) == Run(Step(Step(w, a), b), []);
  }

  /** One user, one reminder, and then the user is removed. */
  lemma DropUserExample(name: string, text: string, time: int)
    ensures var w := Run(EMPTY, [AddUser(name, true), AddReminder(name, text, time, true)]);
            && w.store == Content([Account(name, [0])], [Entry(0, name, text, time)])
            && Invariant(w) && !Legal(w, DropUser(name)) && !Invariant(Step(w, DropUser(name)))
  {
    hide Invariant, Step, Run;
    var a, b := AddUser(name, true), AddReminder(name, text, time, true);
    var u := Step(EMPTY, a);
    var w := Step(u, b);
    AddFirstUser(name);
    AddFirstReminder(u, name, text, time);
    RunOfTwo(EMPTY, a, b);
    NothingYet();
    StepKeeps(EMPTY, a);
    StepKeeps(u, b);
    assert Account(name, [0]) in w.store.accounts && [0] != [];
    DropUserKeepsIff(w, name);
  }

  lemma NothingYet()
    ensures Invariant(EMPTY)
  {
  }

  lemma {:induction false} RunKeeps(w: World, cs: seq<Command>)
    requires Invariant(w) && LegalRun(w, cs)
    ensures Invariant(Run(w, cs))
    decreases cs
  {
    if cs != [] {
      StepKeeps(w, cs[0]);
      RunKeeps(Step(w, cs[0]), cs[1..]);
    }
  }

  /** Every state a legal run reaches is in order. */
  lemma Reachable(cs: seq<Command>)
    requires LegalRun(EMPTY, cs)
    ensures Invariant(Run(EMPTY, cs))
  {
    NothingYet();
    RunKeeps(EMPTY, cs);
  }
}
