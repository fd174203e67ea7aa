/** What each operation of the reminder store does, on values: the users in the order they were added, each
with the reminders it still waits for in add order, and the global queue with its count-down times.

A reminder is known by the serial number it got when it was added; a number is never used twice.  The class
`ReminderStore.Store` carries out the operations on the linked structures and is proved against these.  */
module ReminderModel {
  import opened Sequences

  datatype Entry = Entry(id: nat, owner: string, text: string, time: int)

  datatype Account = Account(name: string, pending: seq<nat>)

  datatype Content = Content(accounts: seq<Account>, queue: seq<Entry>)

  /** The first user of that name, or the number of users. */
  function FindUser(accounts: seq<Account>, name: string): (k: nat)
    ensures k <= |accounts| && (k < |accounts| ==> accounts[k].name == name)
    ensures forall i | 0 <= i < k :: accounts[i].name != name
  {
    if accounts == [] || accounts[0].name == name then 0 else 1 + FindUser(accounts[1..], name)
  }

  /** Where an entry of that time goes: in front of the first one that has longer to wait. */
  function InsertPoint(queue: seq<Entry>, time: int): (k: nat)
    ensures k <= |queue| && (k < |queue| ==> queue[k].time > time)
    ensures forall i | 0 <= i < k :: queue[i].time <= time
  {
    if queue == [] || queue[0].time > time then 0 else 1 + InsertPoint(queue[1..], time)
  }

  /** The first entry of that number, or the length of the queue. */
  function FindEntry(queue: seq<Entry>, id: nat): (k: nat)
    ensures k <= |queue| && (k < |queue| ==> queue[k].id == id)
    ensures forall i | 0 <= i < k :: queue[i].id != id
  {
    if queue == [] || queue[0].id == id then 0 else 1 + FindEntry(queue[1..], id)
  }

  function AddNewUser(s: Content, name: string): (t: Content) {
    if FindUser(s.accounts, name) < |s.accounts| then s else s.(accounts := s.accounts + [Account(name, [])])
  }

  function AddUserReminder(s: Content, name: string, text: string, time: int, id: nat): (t: Content) {
    var k := FindUser(s.accounts, name);
    if k == |s.accounts| then s else
      Content(s.accounts[k := Account(name, s.accounts[k].pending + [id])],
              Inserted(s.queue, InsertPoint(s.queue, time), Entry(id, name, text, time)))
  }

  function RemoveUser(accounts: seq<Account>, name: string): (t: seq<Account>)
    ensures |t| <= |accounts|
    ensures forall a :: a in t <==> a in accounts && a.name != name
  {
    if accounts == [] then []
    else if accounts[0].name == name then RemoveUser(accounts[1..], name)
    else [accounts[0]] + RemoveUser(accounts[1..], name)
  }

  /** The entry number `number` (counting from 1) stands for, if there is one: the user, the place in its list. */
  predicate HasNotification(s: Content, name: string, number: int) {
    var k := FindUser(s.accounts, name);
    && k < |s.accounts| && 1 <= number <= |s.accounts[k].pending|
    && FindEntry(s.queue, s.accounts[k].pending[number - 1]) < |s.queue|
  }

  function RemoveUserNotification(s: Content, name: string, number: int): (t: Content) {
    if !HasNotification(s, name, number) then s else
      var k := FindUser(s.accounts, name);
      var pending := s.accounts[k].pending;
      Content(s.accounts[k := Account(name, Removed(pending, number - 1))],
              Removed(s.queue, FindEntry(s.queue, pending[number - 1])))
  }

  function Without(p: seq<nat>, id: nat): (r: seq<nat>) {
    if p == [] then []
    else if p[0] == id then Without(p[1..], id)
    else [p[0]] + Without(p[1..], id)
  }

  function WithoutNotification(accounts: seq<Account>, owner: string, id: nat): (t: seq<Account>)
    ensures |t| == |accounts|
  {
    seq(|accounts|, i requires 0 <= i < |accounts| =>
      var a := accounts[i]; if a.name == owner then a.(pending := Without(a.pending, id)) else a)
  }

  /** What the timer does at position `i` of the queue: one less to wait, and out of both lists at zero. */
  function Visited(s: Content, i: nat): (t: Content)
    requires i < |s.queue|
  {
    var e := s.queue[i];
    if e.time - 1 == 0 then
      Content(WithoutNotification(s.accounts, e.owner, e.id), Removed(s.queue, i))
    else
      s.(queue := s.queue[i := e.(time := e.time - 1)])
  }

  /** The rest of a timer tick from position `i` on: what it leaves, and the entries that go off, in order. */
  function TickFrom(s: Content, i: nat): (r: (Content, seq<Entry>))
    requires i <= |s.queue|
    decreases |s.queue| - i
  {
    if i == |s.queue| then (s, []) else
      var e, t := s.queue[i], Visited(s, i);
      if e.time - 1 == 0 then
        var r := TickFrom(t, i);
        (r.0, [e] + r.1)
      else
        TickFrom(t, i + 1)
  }

  // ---------- a whole tick, without the loop ----------

  function Counted(e: Entry): (f: Entry) {
    e.(time := e.time - 1)
  }

  function Survivors(q: seq<Entry>): (r: seq<Entry>)
    ensures forall x :: x in r <==> exists e :: e in q && e.time != 1 && x == Counted(e)
  {
    if q == [] then []
    else if q[0].time == 1 then Survivors(q[1..])
    else [Counted(q[0])] + Survivors(q[1..])
  }

  function Expiring(q: seq<Entry>): (r: seq<Entry>)
    ensures forall e :: e in r <==> e in q && e.time == 1
  {
    if q == [] then []
    else if q[0].time == 1 then [q[0]] + Expiring(q[1..])
    else Expiring(q[1..])
  }

  function Dropped(p: seq<nat>, ids: set<nat>): (r: seq<nat>)
    ensures forall id :: id in r <==> id in p && id !in ids
  {
    if p == [] then []
    else if p[0] in ids then Dropped(p[1..], ids)
    else [p[0]] + Dropped(p[1..], ids)
  }

  function OwnIds(q: seq<Entry>, name: string): (ids: set<nat>) {
    set e | e in q && e.owner == name :: e.id
  }

  function AllDropped(accounts: seq<Account>, q: seq<Entry>): (t: seq<Account>)
    ensures |t| == |accounts|
  {
    seq(|accounts|, i requires 0 <= i < |accounts| =>
      var a := accounts[i]; a.(pending := Dropped(a.pending, OwnIds(q, a.name))))
  }

  lemma {:induction false} DroppedAfterWithout(p: seq<nat>, id: nat, ids: set<nat>)
    ensures Dropped(Without(p, id), ids) == Dropped(p, {id} + ids)
  {
    if p != [] {
      DroppedAfterWithout(p[1..], id, ids);
      if p[0] != id {
        assert ([p[0]] + Without(p[1..], id))[1..] == Without(p[1..], id);
      }
    }
  }

  lemma {:induction false} DroppedNothing(p: seq<nat>)
    ensures Dropped(p, {}) == p
  {
    if p != [] {
      DroppedNothing(p[1..]);
      assert p == [p[0]] + p[1..];
    }
  }

  lemma AllDroppedFirst(accounts: seq<Account>, e: Entry, q: seq<Entry>)
    ensures AllDropped(WithoutNotification(accounts, e.owner, e.id), q) == AllDropped(accounts, [e] + q)
  {
    var b, c, d := WithoutNotification(accounts, e.owner, e.id), [e] + q, AllDropped(accounts, [e] + q);
    forall i | 0 <= i < |accounts| ensures AllDropped(b, q)[i] == d[i] {
      var a := accounts[i];
      if a.name == e.owner {
        DroppedAfterWithout(a.pending, e.id, OwnIds(q, a.name));
        assert OwnIds(c, a.name) == {e.id} + OwnIds(q, a.name);
      } else {
        assert OwnIds(c, a.name) == OwnIds(q, a.name);
      }
    }
  }

  /** What is left of a tick from position `i` on: the entries whose time is 1 go off in queue order and
      leave both lists, all others wait one less, in their old order. */
  function TickResult(s: Content, i: nat): (r: (Content, seq<Entry>))
    requires i <= |s.queue|
  {
    var rest := s.queue[i..];
    (Content(AllDropped(s.accounts, Expiring(rest)), s.queue[..i] + Survivors(rest)), Expiring(rest))
  }

  lemma TickResultAtEnd(s: Content)
    ensures TickResult(s, |s.queue|) == (s, [])
  {
    forall k | 0 <= k < |s.accounts| ensures AllDropped(s.accounts, [])[k] == s.accounts[k] {
      assert OwnIds([], s.accounts[k].name) == {};
      DroppedNothing(s.accounts[k].pending);
    }
    assert AllDropped(s.accounts, []) == s.accounts;
    assert s.queue[|s.queue|..] == [] && s.queue[..|s.queue|] + [] == s.queue;
  }

  lemma TickResultFire(s: Content, i: nat)
    requires i < |s.queue| && s.queue[i].time == 1
    ensures var r := TickResult(Visited(s, i), i);
            TickResult(s, i) == (r.0, [s.queue[i]] + r.1)
  {
    var e, t, rest := s.queue[i], Visited(s, i), s.queue[i + 1..];
    assert s.queue[i..] == [e] + rest;
    assert t.queue[..i] == s.queue[..i] && t.queue[i..] == rest;
    AllDroppedFirst(s.accounts, e, Expiring(rest));
  }

  lemma TickResultWait(s: Content, i: nat)
    requires i < |s.queue| && s.queue[i].time != 1
    ensures TickResult(s, i) == TickResult(Visited(s, i), i + 1)
  {
    var e, t, rest := s.queue[i], Visited(s, i), s.queue[i + 1..];
    assert s.queue[i..] == [e] + rest;
    assert t.queue[..i + 1] == s.queue[..i] + [Counted(e)] && t.queue[i + 1..] == rest;
    assert s.queue[..i] + ([Counted(e)] + Survivors(rest)) == t.queue[..i + 1] + Survivors(rest);
  }

  /** The loop visits every entry present at its start exactly once, although it takes entries out under way. */
  lemma {:induction false} TickIs(s: Content, i: nat)
    requires i <= |s.queue|
    ensures TickFrom(s, i) == TickResult(s, i)
    decreases |s.queue| - i
  {
    if i == |s.queue| {
      TickResultAtEnd(s);
    } else if s.queue[i].time == 1 {
      TickIs(Visited(s, i), i);
      TickResultFire(s, i);
    } else {
      TickIs(Visited(s, i), i + 1);
      TickResultWait(s, i);
    }
  }

  // ---------- taking one number out of a list of different numbers ----------

  lemma {:induction false} RemovedIsWithout(p: seq<nat>, k: nat)
    requires Distinct(p) && k < |p|
    ensures Without(p, p[k]) == Removed(p, k)
  {
    if k == 0 {
      NothingWithout(p[1..], p[0]);
    } else {
      RemovedIsWithout(p[1..], k - 1);
      assert Removed(p, k) == [p[0]] + Removed(p[1..], k - 1);
    }
  }

  lemma {:induction false} NothingWithout(p: seq<nat>, id: nat)
    requires id !in p
    ensures Without(p, id) == p
  {
    if p != [] {
      NothingWithout(p[1..], id);
      assert p == [p[0]] + p[1..];
    }
  }

  lemma WithoutNotificationIs(accounts: seq<Account>, n: nat, k: nat)
    requires n < |accounts| && k < |accounts[n].pending| && Distinct(accounts[n].pending)
    requires forall i | 0 <= i < |accounts| && i != n :: accounts[i].name != accounts[n].name
    ensures var a := accounts[n];
            WithoutNotification(accounts, a.name, a.pending[k]) == accounts[n := Account(a.name, Removed(a.pending, k))]
  {
    RemovedIsWithout(accounts[n].pending, k);
  }
}
