/** The reminder store as it sits in memory: every user and every reminder is linked in by the list heads it
holds, a reminder on two lists at once.  Each operation is proved to do to the abstract content exactly what
`ReminderModel` says.  */
module ReminderStore {
  import opened Sequences
  import opened LinkedList
  import opened ReminderModel

  // Which member of its structure a link is.
  const REMINDER_LIST: nat := 0
  const REMINDER_USER_NOTIFY_LIST: nat := 1
  const USER_LIST: nat := 2
  const USER_NOTIFICATIONS_LIST: nat := 3
  const USERS_HEAD: nat := 4
  const REMINDERS_HEAD: nat := 5

  class Reminder {
    const list: ListHead
    const userNotifyList: ListHead
    const notificationText: string
    var belongsTo: User?
    var ellapseTime: int
    ghost const id: nat

    constructor (text: string, time: int, ghost id: nat)
      ensures notificationText == text && ellapseTime == time && belongsTo == null && this.id == id
      ensures list != userNotifyList
      ensures fresh(list) && fresh(userNotifyList) && ReminderOk(this)
    {
      notificationText, ellapseTime, belongsTo, this.id := text, time, null, id;
      list := new ListHead(REMINDER_LIST);
      userNotifyList := new ListHead(REMINDER_USER_NOTIFY_LIST);
      new;
      list.container := this;
      userNotifyList.container := this;
    }
  }

  class User {
    const list: ListHead
    const userName: string
    const notificationsList: ListHead

    constructor (name: string)
      ensures userName == name && list != notificationsList
      ensures fresh(list) && fresh(notificationsList) && UserOk(this)
    {
      userName := name;
      list := new ListHead(USER_LIST);
      notificationsList := new ListHead(USER_NOTIFICATIONS_LIST);
      new;
      list.container := this;
      notificationsList.container := this;
    }
  }

  ghost predicate ReminderOk(r: Reminder)
    reads r.list`container, r.userNotifyList`container
  {
    && r.list.member == REMINDER_LIST && r.userNotifyList.member == REMINDER_USER_NOTIFY_LIST
    && r.list.container == r && r.userNotifyList.container == r
  }

  ghost predicate UserOk(u: User)
    reads u.list`container, u.notificationsList`container
  {
    && u.list.member == USER_LIST && u.notificationsList.member == USER_NOTIFICATIONS_LIST
    && u.list.container == u && u.notificationsList.container == u
  }

  // ---------- the rings ----------

  ghost function UsersRing(head: ListHead, us: seq<User>): (r: seq<ListHead>)
    ensures |r| == |us| + 1 && r[0] == head && forall i | 0 <= i < |us| :: r[i + 1] == us[i].list
  {
    [head] + seq(|us|, i requires 0 <= i < |us| => us[i].list)
  }

  ghost function QueueRing(head: ListHead, rs: seq<Reminder>): (r: seq<ListHead>)
    ensures |r| == |rs| + 1 && r[0] == head && forall i | 0 <= i < |rs| :: r[i + 1] == rs[i].list
  {
    [head] + seq(|rs|, i requires 0 <= i < |rs| => rs[i].list)
  }

  ghost function NotifyRing(head: ListHead, rs: seq<Reminder>): (r: seq<ListHead>)
    ensures |r| == |rs| + 1 && r[0] == head && forall i | 0 <= i < |rs| :: r[i + 1] == rs[i].userNotifyList
  {
    [head] + seq(|rs|, i requires 0 <= i < |rs| => rs[i].userNotifyList)
  }

  // ---------- what the memory holds ----------

  /** Who is linked in, in which order: all that is known about the memory besides the memory itself. */
  datatype View = View(uh: ListHead, qh: ListHead, us: seq<User>, q: seq<Reminder>,
                       pending: map<User, seq<Reminder>>, next: nat, mem: set<object>)

  /** The structures of a view: where they are, who they belong to, and how they are told apart.
      This does not depend on the links between them. */
  ghost predicate Data(v: View)
    reads v.mem
  {
    && v.uh in v.mem && v.qh in v.mem && v.uh.member == USERS_HEAD && v.qh.member == REMINDERS_HEAD
    && (forall u | u in v.us ::
          u in v.pending && u in v.mem && u.list in v.mem && u.notificationsList in v.mem && UserOk(u))
    && (forall r | r in v.q :: r in v.mem && r.list in v.mem && r.userNotifyList in v.mem && ReminderOk(r))
    && (forall u, r | u in v.us && r in v.pending[u] :: r in v.q && r.belongsTo == u)
    && (forall r | r in v.q :: r.belongsTo != null && r.belongsTo in v.us && r in v.pending[r.belongsTo])
    && (forall u, w | u in v.us && w in v.us && u.userName == w.userName :: u == w)
    && (forall r, s | r in v.q && s in v.q && r.id == s.id :: r == s)
    && (forall r | r in v.q :: r.id < v.next)
  }

  /** Where the links of a view are, and what kinds of links each ring is made of. */
  lemma UsersKinds(v: View)
    requires Data(v)
    ensures forall h | h in UsersRing(v.uh, v.us) :: h in v.mem && (h.member == USER_LIST || h.member == USERS_HEAD)
  {
    forall h | h in UsersRing(v.uh, v.us) ensures h in v.mem && (h.member == USER_LIST || h.member == USERS_HEAD) {
      var i :| 0 <= i < |v.us| + 1 && UsersRing(v.uh, v.us)[i] == h;
      if i > 0 {
        assert v.us[i - 1] in v.us;
      }
    }
  }

  lemma QueueKinds(v: View)
    requires Data(v)
    ensures forall h | h in QueueRing(v.qh, v.q) ::
              h in v.mem && (h.member == REMINDER_LIST || h.member == REMINDERS_HEAD)
  {
    forall h | h in QueueRing(v.qh, v.q)
      ensures h in v.mem && (h.member == REMINDER_LIST || h.member == REMINDERS_HEAD)
    {
      var i :| 0 <= i < |v.q| + 1 && QueueRing(v.qh, v.q)[i] == h;
      if i > 0 {
        assert v.q[i - 1] in v.q;
      }
    }
  }

  /** Besides, a link of a user's ring leads to that user. */
  lemma NotifyKind(v: View, u: User, h: ListHead)
    requires Data(v) && u in v.us && h in NotifyRing(u.notificationsList, v.pending[u])
    ensures h in v.mem && (h.member == REMINDER_USER_NOTIFY_LIST || h.member == USER_NOTIFICATIONS_LIST)
    ensures h.member == USER_NOTIFICATIONS_LIST ==> h.container == u
    ensures h.member == REMINDER_USER_NOTIFY_LIST ==>
              h.container is Reminder && h.container in v.q && (h.container as Reminder).belongsTo == u
  {
    var i :| 0 <= i < |v.pending[u]| + 1 && NotifyRing(u.notificationsList, v.pending[u])[i] == h;
    if i > 0 {
      var r := v.pending[u][i - 1];
      assert r in v.pending[u] && r in v.q;
    }
  }

  /** The links of different users' rings are different. */
  lemma NotifyApart(v: View, u: User, w: User)
    requires Data(v) && u in v.us && w in v.us && u != w
    ensures forall h | h in NotifyRing(u.notificationsList, v.pending[u]) ::
              h !in NotifyRing(w.notificationsList, v.pending[w])
  {
    forall h | h in NotifyRing(u.notificationsList, v.pending[u])
      ensures h !in NotifyRing(w.notificationsList, v.pending[w])
    {
      NotifyKind(v, u, h);
      if h in NotifyRing(w.notificationsList, v.pending[w]) {
        NotifyKind(v, w, h);
      }
    }
  }

  lemma PendingKnown(v: View)
    requires Data(v)
    ensures forall u | u in v.us :: u in v.pending
  {
  }

  lemma NotifyKinds(v: View)
    requires Data(v)
    ensures forall u, h | u in v.us && h in NotifyRing(u.notificationsList, v.pending[u]) ::
              h in v.mem && (h.member == REMINDER_USER_NOTIFY_LIST || h.member == USER_NOTIFICATIONS_LIST)
  {
    hide *;
    PendingKnown(v);
    forall u, h | u in v.us && h in NotifyRing(u.notificationsList, v.pending[u])
      ensures h in v.mem && (h.member == REMINDER_USER_NOTIFY_LIST || h.member == USER_NOTIFICATIONS_LIST)
    {
      NotifyKind(v, u, h);
    }
  }

  ghost predicate UsersLinked(v: View)
    requires Data(v)
    reads v.mem
  {
    UsersKinds(v);
    Ring(UsersRing(v.uh, v.us))
  }

  ghost predicate QueueLinked(v: View)
    requires Data(v)
    reads v.mem
  {
    QueueKinds(v);
    Ring(QueueRing(v.qh, v.q))
  }

  ghost predicate PendingLinked(v: View)
    requires Data(v)
    reads v.mem
  {
    NotifyKinds(v);
    forall u | u in v.us :: Ring(NotifyRing(u.notificationsList, v.pending[u]))
  }

  ghost predicate Links(v: View)
    requires Data(v)
    reads v.mem
  {
    UsersLinked(v) && QueueLinked(v) && PendingLinked(v)
  }

  ghost function PendingIds(rs: seq<Reminder>): (ids: seq<nat>)
    ensures |ids| == |rs|
  {
    seq(|rs|, i requires 0 <= i < |rs| => rs[i].id)
  }

  ghost function EntryOf(r: Reminder): (e: Entry)
    requires r.belongsTo != null
    reads r
  {
    Entry(r.id, r.belongsTo.userName, r.notificationText, r.ellapseTime)
  }

  ghost function Accounts(v: View): (s: seq<Account>)
    requires forall u | u in v.us :: u in v.pending
    ensures |s| == |v.us|
    ensures forall i | 0 <= i < |v.us| :: s[i] == Account(v.us[i].userName, PendingIds(v.pending[v.us[i]]))
  {
    seq(|v.us|, i requires 0 <= i < |v.us| => Account(v.us[i].userName, PendingIds(v.pending[v.us[i]])))
  }

  ghost function Entries(v: View): (s: seq<Entry>)
    requires Data(v)
    reads v.mem
    ensures |s| == |v.q| && forall i | 0 <= i < |v.q| :: s[i] == EntryOf(v.q[i])
  {
    seq(|v.q|, i requires 0 <= i < |v.q| && Data(v) reads v.mem => EntryOf(v.q[i]))
  }

  ghost function Abstract(v: View): (s: Content)
    requires Data(v)
    reads v.mem
    ensures |s.accounts| == |v.us| && |s.queue| == |v.q|
  {
    Content(Accounts(v), Entries(v))
  }

  /** Neither links nor count-downs are part of the data. */
  twostate lemma DataStays(v: View)
    requires old(Data(v))
    requires forall r | r in v.q :: r.belongsTo == old(r.belongsTo)
    requires forall h: ListHead | h in v.mem :: h.container == old(h.container)
    ensures Data(v)
  {
  }

  twostate lemma DataKept(v: View)
    requires old(Data(v))
    requires forall r | r in v.q :: r.belongsTo == old(r.belongsTo) && r.ellapseTime == old(r.ellapseTime)
    requires forall h: ListHead | h in v.mem :: h.container == old(h.container)
    ensures Data(v) && Abstract(v) == old(Abstract(v))
  {
    hide Data;
    DataStays(v);
    forall i | 0 <= i < |v.q| ensures Entries(v)[i] == old(Entries(v))[i] {
      assert v.q[i] in v.q;
    }
  }

  /** A ring whose links were not changed is still a ring. */
  twostate lemma RingsKept(rings: set<seq<ListHead>>)
    requires forall r | r in rings :: old(Ring(r))
    requires forall r, h | r in rings && h in r :: h.next == old(h.next) && h.prev == old(h.prev)
    ensures forall r | r in rings :: Ring(r)
  {
  }

  /** Pointer writes confined to the links `touched`, and the parts of the store that own none of them. */
  datatype Writes = Writes(v: View, touched: set<ListHead>, users: bool, queue: bool, us: set<User>)

  ghost predicate Untouched(c: Writes) {
    && (forall u | u in c.us :: u in c.v.us && u in c.v.pending)
    && (c.users ==> forall h | h in UsersRing(c.v.uh, c.v.us) :: h !in c.touched)
    && (c.queue ==> forall h | h in QueueRing(c.v.qh, c.v.q) :: h !in c.touched)
    && (forall u, h | u in c.us && h in NotifyRing(u.notificationsList, c.v.pending[u]) :: h !in c.touched)
  }

  ghost function UntouchedRings(c: Writes): (rings: set<seq<ListHead>>)
    requires forall u | u in c.us :: u in c.v.pending
  {
    (if c.users then {UsersRing(c.v.uh, c.v.us)} else {})
    + (if c.queue then {QueueRing(c.v.qh, c.v.q)} else {})
    + set u | u in c.us :: NotifyRing(u.notificationsList, c.v.pending[u])
  }

  /** Called before the writes. */
  lemma UntouchedBefore(c: Writes)
    requires Data(c.v) && Untouched(c) && (c.users ==> UsersLinked(c.v)) && (c.queue ==> QueueLinked(c.v))
    requires forall u | u in c.us :: Ring(NotifyRing(u.notificationsList, c.v.pending[u]))
    ensures forall r | r in UntouchedRings(c) :: Ring(r)
  {
    hide Data, Ring;
  }

  lemma UntouchedRingsMean(c: Writes)
    requires Data(c.v) && Untouched(c)
    ensures forall r, h | r in UntouchedRings(c) && h in r :: h in c.v.mem && h !in c.touched
  {
    hide Data;
    UsersKinds(c.v);
    QueueKinds(c.v);
    NotifyKinds(c.v);
  }

  lemma UntouchedLinked(c: Writes)
    requires Data(c.v) && Untouched(c) && forall r | r in UntouchedRings(c) :: Ring(r)
    ensures c.users ==> UsersLinked(c.v)
    ensures c.queue ==> QueueLinked(c.v)
    ensures forall u | u in c.us :: Ring(NotifyRing(u.notificationsList, c.v.pending[u]))
  {
    hide Data, Ring;
    forall u | u in c.us ensures Ring(NotifyRing(u.notificationsList, c.v.pending[u])) {
      assert NotifyRing(u.notificationsList, c.v.pending[u]) in UntouchedRings(c);
    }
  }

  twostate lemma LinkStep(c: Writes)
    requires old(Data(c.v)) && Untouched(c)
    requires forall r | r in UntouchedRings(c) :: old(Ring(r))
    requires forall r | r in c.v.q :: r.belongsTo == old(r.belongsTo) && r.ellapseTime == old(r.ellapseTime)
    requires forall h: ListHead | h in c.v.mem :: h.container == old(h.container)
    requires forall h: ListHead | h in c.v.mem && h !in c.touched :: h.next == old(h.next) && h.prev == old(h.prev)
    ensures Data(c.v) && Abstract(c.v) == old(Abstract(c.v))
    ensures c.users ==> UsersLinked(c.v)
    ensures c.queue ==> QueueLinked(c.v)
    ensures forall u | u in c.us :: Ring(NotifyRing(u.notificationsList, c.v.pending[u]))
  {
    hide Data, Links, Ring, Abstract, UntouchedRings, UsersLinked, QueueLinked;
    DataKept(c.v);
    UntouchedRingsMean(c);
    RingsKept(UntouchedRings(c));
    UntouchedLinked(c);
  }

  lemma EmptyIsFine(v: View)
    requires v.us == [] && v.q == [] && v.uh in v.mem && v.qh in v.mem
    requires v.uh.member == USERS_HEAD && v.qh.member == REMINDERS_HEAD
    requires Ring([v.uh]) && Ring([v.qh])
    ensures Data(v) && Links(v) && Abstract(v) == Content([], [])
  {
    assert UsersRing(v.uh, v.us) == [v.uh] && QueueRing(v.qh, v.q) == [v.qh];
  }

  // ---------- adding a user ----------

  ghost function WithUser(v: View, u: User): (w: View)
    ensures w.mem == v.mem + {u, u.list, u.notificationsList}
  {
    v.(us := v.us + [u], pending := v.pending[u := []], mem := v.mem + {u, u.list, u.notificationsList})
  }

  lemma WithUserPlaces(v: View, u: User)
    requires Data(v) && UserOk(u)
    ensures var w := WithUser(v, u);
            && (forall x | x in w.us ::
                  x in w.pending && x in w.mem && x.list in w.mem && x.notificationsList in w.mem && UserOk(x))
            && (forall r | r in w.q :: r in w.mem && r.list in w.mem && r.userNotifyList in w.mem && ReminderOk(r))
  {
    hide UserOk, ReminderOk;
  }

  lemma WithUserData(v: View, u: User)
    requires Data(v) && UserOk(u) && u !in v.us && forall w | w in v.us :: w.userName != u.userName
    ensures Data(WithUser(v, u))
  {
    hide UserOk, ReminderOk;
    WithUserPlaces(v, u);
  }

  lemma WithUserAbstract(v: View, u: User)
    requires Data(v) && Data(WithUser(v, u)) && u !in v.us
    ensures Abstract(WithUser(v, u)) == Content(Accounts(v) + [Account(u.userName, [])], Entries(v))
  {
    var w := WithUser(v, u);
    forall i | 0 <= i < |v.us| ensures Accounts(w)[i] == Accounts(v)[i] {
      assert v.us[i] in v.us;
    }
    assert Accounts(w) == Accounts(v) + [Account(u.userName, [])];
    assert Entries(w) == Entries(v);
  }

  lemma WithUserLinks(v: View, u: User)
    requires Data(v) && Data(WithUser(v, u)) && u !in v.us
    requires QueueLinked(v) && PendingLinked(v) && Ring([u.notificationsList])
    requires Ring(Inserted(UsersRing(v.uh, v.us), |v.us| + 1, u.list))
    ensures Links(WithUser(v, u))
  {
    var w := WithUser(v, u);
    assert UsersRing(w.uh, w.us) == Inserted(UsersRing(v.uh, v.us), |v.us| + 1, u.list);
    assert NotifyRing(u.notificationsList, []) == [u.notificationsList];
    forall x | x in w.us ensures Ring(NotifyRing(x.notificationsList, w.pending[x])) {
      if x != u {
        assert x in v.us;
      }
    }
  }

  lemma UserAt(v: View, name: string, k: nat)
    requires Data(v) && k <= |v.us| && (k < |v.us| ==> v.us[k].userName == name)
    requires forall i | 0 <= i < k :: v.us[i].userName != name
    ensures FindUser(Abstract(v).accounts, name) == k
  {
  }

  /** What a walk along the users' ring needs to know at each step. */
  lemma UsersWalk(v: View, i: nat)
    requires Data(v) && Links(v) && i <= |v.us|
    ensures i > 0 ==> v.us[i - 1].list.container == v.us[i - 1]
    ensures i > 0 ==> v.us[i - 1].list.next == if i < |v.us| then v.us[i].list else v.uh
    ensures i < |v.us| ==> v.us[i].list != v.uh
    ensures i == 0 ==> v.uh.next == if i < |v.us| then v.us[i].list else v.uh
  {
    hide Data, Ring;
    RingLink(UsersRing(v.uh, v.us), i);
    UserLink(v, if i > 0 then i - 1 else i);
    UserLink(v, i);
  }

  lemma UserLink(v: View, i: nat)
    requires Data(v)
    ensures i < |v.us| ==> v.us[i].list.container == v.us[i] && v.us[i].list != v.uh
  {
    assert i < |v.us| ==> v.us[i] in v.us;
  }

  // ---------- adding a reminder ----------

  /** What a walk along the queue needs to know at each step. */
  lemma QueueWalk(v: View, i: nat)
    requires Data(v) && QueueLinked(v) && i <= |v.q|
    ensures i > 0 ==> v.q[i - 1].list.container == v.q[i - 1] && v.q[i - 1] in v.q
    ensures i > 0 ==> v.q[i - 1].list.next == if i < |v.q| then v.q[i].list else v.qh
    ensures i < |v.q| ==> v.q[i].list != v.qh
    ensures i == 0 ==> v.qh.next == if i < |v.q| then v.q[i].list else v.qh
  {
    hide Data, Ring;
    RingLink(QueueRing(v.qh, v.q), i);
    QueueLink(v, if i > 0 then i - 1 else i);
    QueueLink(v, i);
  }

  lemma QueueLink(v: View, i: nat)
    requires Data(v)
    ensures i < |v.q| ==> v.q[i].list.container == v.q[i] && v.q[i] in v.q && v.q[i].list != v.qh
  {
    assert i < |v.q| ==> v.q[i] in v.q;
  }

  lemma QueuePoint(v: View, time: int, k: nat)
    requires Data(v) && k <= |v.q| && (k < |v.q| ==> v.q[k].ellapseTime > time)
    requires forall i | 0 <= i < k :: v.q[i].ellapseTime <= time
    ensures InsertPoint(Entries(v), time) == k
  {
    var p := InsertPoint(Entries(v), time);
    assert p < |v.q| ==> Entries(v)[p].time == v.q[p].ellapseTime;
    assert k < |v.q| ==> Entries(v)[k].time == v.q[k].ellapseTime;
  }

  lemma QueueRingIn(v: View)
    requires Data(v) && QueueLinked(v)
    ensures var ring := QueueRing(v.qh, v.q);
            && Ring(ring) && |ring| == |v.q| + 1 && ring[0] == v.qh
            && (forall i | 0 <= i < |v.q| :: ring[i + 1] == v.q[i].list)
            && (forall i | 0 <= i < |ring| :: ring[i] in v.mem)
  {
    QueueKinds(v);
  }

  ghost function WithReminder(v: View, u: User, r: Reminder, k: nat): (w: View)
    requires u in v.pending && k <= |v.q|
    ensures w.mem == v.mem + {r, r.list, r.userNotifyList} && w.next == v.next + 1 && w.uh == v.uh && w.qh == v.qh
  {
    v.(q := Inserted(v.q, k, r), pending := v.pending[u := v.pending[u] + [r]], next := v.next + 1,
       mem := v.mem + {r, r.list, r.userNotifyList})
  }

  lemma QueueInserted(v: View, u: User, r: Reminder, k: nat)
    requires u in v.pending && k <= |v.q|
    ensures var w := WithReminder(v, u, r, k);
            && w.uh == v.uh && w.qh == v.qh && w.us == v.us && w.next == v.next + 1
            && w.pending == v.pending[u := v.pending[u] + [r]]
            && (forall i | 0 <= i < |w.q| :: w.q[i] in v.q || w.q[i] == r)
            && (forall i | 0 <= i < |v.q| :: v.q[i] in w.q) && r in w.q
  {
    InsertedElements(v.q, k, r);
  }

  lemma WithReminderData(v: View, u: User, r: Reminder, k: nat)
    requires Data(v) && u in v.us && ReminderOk(r) && r.belongsTo == u && r.id == v.next && r !in v.mem && k <= |v.q|
    ensures Data(WithReminder(v, u, r, k))
  {
    hide WithReminder, UserOk;
    var w := WithReminder(v, u, r, k);
    QueueInserted(v, u, r, k);
    assert forall s | s in w.q :: s in v.q || s == r;
    forall x, s | x in w.us && s in w.pending[x] ensures s in w.q && s.belongsTo == x {
      if x == u {
        assert s in v.pending[u] || s == r;
      }
      if s != r {
        assert s in v.pending[x] && s in v.q;
        var i :| 0 <= i < |v.q| && v.q[i] == s;
      }
    }
  }

  lemma UsersOnce(v: View)
    requires Data(v) && UsersLinked(v)
    ensures Distinct(v.us)
  {
    var ring := UsersRing(v.uh, v.us);
    RingLinks(ring);
    forall i, j | 0 <= i < j < |v.us| ensures v.us[i] != v.us[j] {
      assert ring[i + 1] != ring[j + 1];
    }
  }

  /** A user is found by its name, at the one place where it is. */
  lemma UserPlace(v: View, u: User)
    requires Data(v) && UsersLinked(v) && u in v.us
    ensures var n := FindUser(Accounts(v), u.userName);
            n < |v.us| && v.us[n] == u && forall i | 0 <= i < |v.us| :: v.us[i] == u <==> i == n
  {
    var n := FindUser(Accounts(v), u.userName);
    var at :| 0 <= at < |v.us| && v.us[at] == u;
    assert Accounts(v)[at].name == u.userName;
    assert v.us[n] in v.us && v.us[n] == u;
    UsersOnce(v);
  }

  lemma AccountsAppended(v: View, u: User, r: Reminder, k: nat)
    requires Data(v) && UsersLinked(v) && u in v.us && r.id == v.next && k <= |v.q|
    ensures var w, n := WithReminder(v, u, r, k), FindUser(Accounts(v), u.userName);
            n < |v.us| && v.us[n] == u && (forall x | x in w.us :: x in w.pending)
            && Accounts(w) == Accounts(v)[n := Account(u.userName, Accounts(v)[n].pending + [v.next])]
  {
    hide Data, UsersLinked, WithReminder;
    UserPlace(v, u);
    PendingKnown(v);
    QueueInserted(v, u, r, k);
    var w, n := WithReminder(v, u, r, k), FindUser(Accounts(v), u.userName);
    assert PendingIds(v.pending[u] + [r]) == PendingIds(v.pending[u]) + [v.next];
    assert Accounts(w) == Accounts(v)[n := Account(u.userName, Accounts(v)[n].pending + [v.next])];
  }

  lemma WithReminderAbstract(v: View, u: User, r: Reminder, k: nat)
    requires Data(v) && UsersLinked(v) && u in v.us && r.belongsTo == u && r.id == v.next && k <= |v.q|
    requires Data(WithReminder(v, u, r, k)) && k == InsertPoint(Entries(v), r.ellapseTime)
    ensures Abstract(WithReminder(v, u, r, k))
         == ReminderModel.AddUserReminder(Abstract(v), u.userName, r.notificationText, r.ellapseTime, v.next)
  {
    hide Data, Accounts, Entries, WithReminder;
    AccountsAppended(v, u, r, k);
    EntriesInserted(v, u, r, k);
  }

  lemma EntriesInserted(v: View, u: User, r: Reminder, k: nat)
    requires Data(v) && u in v.us && r.belongsTo == u && k <= |v.q| && Data(WithReminder(v, u, r, k))
    ensures Entries(WithReminder(v, u, r, k)) == Inserted(Entries(v), k, EntryOf(r))
  {
    var w, t := WithReminder(v, u, r, k), Inserted(Entries(v), k, EntryOf(r));
    forall i | 0 <= i < |w.q| ensures Entries(w)[i] == t[i] {
      hide *;
      EntriesAt(w, i);
      InsertedAt(v.q, k, r, i);
      InsertedAt(Entries(v), k, EntryOf(r), i);
      if i < k {
        EntriesAt(v, i);
      } else if i > k {
        EntriesAt(v, i - 1);
      }
    }
  }

  lemma EntriesAt(v: View, i: nat)
    requires Data(v) && i < |v.q|
    ensures |Entries(v)| == |v.q| && v.q[i] in v.q && v.q[i].belongsTo != null && Entries(v)[i] == EntryOf(v.q[i])
  {
    assert v.q[i] in v.q;
  }

  lemma WithReminderLinks(v: View, u: User, r: Reminder, k: nat)
    requires Data(v) && u in v.us && k <= |v.q| && Data(WithReminder(v, u, r, k)) && UsersLinked(v)
    requires forall w | w in Elements(v.us) - {u} :: Ring(NotifyRing(w.notificationsList, v.pending[w]))
    requires Ring(Inserted(NotifyRing(u.notificationsList, v.pending[u]), |v.pending[u]| + 1, r.userNotifyList))
    requires Ring(Inserted(QueueRing(v.qh, v.q), k + 1, r.list))
    ensures Links(WithReminder(v, u, r, k))
  {
    hide Data, Ring;
    PendingKnown(v);
    var w := WithReminder(v, u, r, k);
    QueueRingInserted(v.qh, v.q, k, r);
    assert NotifyRing(u.notificationsList, w.pending[u])
        == Inserted(NotifyRing(u.notificationsList, v.pending[u]), |v.pending[u]| + 1, r.userNotifyList);
    forall x | x in w.us ensures x in w.pending && Ring(NotifyRing(x.notificationsList, w.pending[x])) {
      assert x != u ==> x in Elements(v.us) - {u};
    }
  }

  lemma QueueRingInserted(head: ListHead, q: seq<Reminder>, k: nat, r: Reminder)
    requires k <= |q|
    ensures QueueRing(head, Inserted(q, k, r)) == Inserted(QueueRing(head, q), k + 1, r.list)
  {
    var a, b := QueueRing(head, Inserted(q, k, r)), Inserted(QueueRing(head, q), k + 1, r.list);
    forall i | 0 <= i < |a| ensures a[i] == b[i] {
      hide Inserted;
      InsertedAt(QueueRing(head, q), k + 1, r.list, i);
      if i > 0 {
        InsertedAt(q, k, r, i - 1);
      }
    }
  }

  // ---------- taking a reminder out ----------

  ghost function WithoutReminder(v: View, u: User, kp: nat, kq: nat): (w: View)
    requires u in v.pending && kp < |v.pending[u]| && kq < |v.q|
    ensures w.uh == v.uh && w.qh == v.qh && w.us == v.us && w.next == v.next && w.q == Removed(v.q, kq)
    ensures w.pending == v.pending[u := Removed(v.pending[u], kp)]
    ensures w.mem == v.mem - {v.q[kq], v.q[kq].list, v.q[kq].userNotifyList}
  {
    v.(q := Removed(v.q, kq), pending := v.pending[u := Removed(v.pending[u], kp)],
       mem := v.mem - {v.q[kq], v.q[kq].list, v.q[kq].userNotifyList})
  }

  /** Where a reminder is on its two lists. */
  ghost predicate Placed(v: View, u: User, kp: nat, kq: nat) {
    && u in v.us && u in v.pending && kp < |v.pending[u]| && kq < |v.q| && v.pending[u][kp] == v.q[kq]
    && Distinct(v.q) && Distinct(v.pending[u])
  }

  lemma RemovedFrom<T>(s: seq<T>, k: nat)
    requires Distinct(s) && k < |s|
    ensures |Removed(s, k)| == |s| - 1
    ensures forall i | 0 <= i < |s| - 1 :: Removed(s, k)[i] in s && Removed(s, k)[i] != s[k]
    ensures forall i | 0 <= i < |s| && i != k :: s[i] in Removed(s, k)
    ensures s[k] !in Removed(s, k)
  {
    forall i | 0 <= i < |s| && i != k ensures s[i] in Removed(s, k) {
      assert Removed(s, k)[if i < k then i else i - 1] == s[i];
    }
  }

  lemma WithoutMembers(v: View, u: User, kp: nat, kq: nat)
    requires Placed(v, u, kp, kq)
    ensures var w, r := WithoutReminder(v, u, kp, kq), v.q[kq];
            && r in v.q && r in v.pending[u]
            && (forall i | 0 <= i < |w.q| :: w.q[i] in v.q && w.q[i] != r)
            && (forall i | 0 <= i < |v.q| && i != kq :: v.q[i] in w.q)
            && (forall i | 0 <= i < |w.pending[u]| :: w.pending[u][i] in v.pending[u] && w.pending[u][i] != r)
            && (forall i | 0 <= i < |v.pending[u]| && i != kp :: v.pending[u][i] in w.pending[u])
  {
    hide Removed, Distinct;
    RemovedFrom(v.q, kq);
    RemovedFrom(v.pending[u], kp);
  }

  lemma WithoutOwners(v: View, u: User, kp: nat, kq: nat)
    requires Data(v) && Placed(v, u, kp, kq)
    ensures var w := WithoutReminder(v, u, kp, kq);
            && (forall x, r | x in w.us && r in w.pending[x] :: r in w.q && r.belongsTo == x)
            && (forall r | r in w.q :: r.belongsTo != null && r.belongsTo in w.us && r in w.pending[r.belongsTo])
  {
    hide Removed, Distinct;
    var w, r := WithoutReminder(v, u, kp, kq), v.q[kq];
    WithoutMembers(v, u, kp, kq);
    forall s | s in v.q && s != r ensures s in w.q {
      var i :| 0 <= i < |v.q| && v.q[i] == s;
    }
    forall s | s in v.pending[u] && s != r ensures s in w.pending[u] {
      var i :| 0 <= i < |v.pending[u]| && v.pending[u][i] == s;
    }
    forall x, s | x in w.us && s in w.pending[x] ensures s in w.q && s.belongsTo == x {
      assert s in v.pending[x] && s != r;
    }
  }

  lemma WithoutReminderData(v: View, u: User, kp: nat, kq: nat)
    requires Data(v) && Placed(v, u, kp, kq)
    ensures Data(WithoutReminder(v, u, kp, kq))
  {
    hide Removed, Distinct;
    WithoutMembers(v, u, kp, kq);
    WithoutOwners(v, u, kp, kq);
  }

  lemma AccountsWithout(v: View, u: User, kp: nat, kq: nat)
    requires Data(v) && UsersLinked(v) && Placed(v, u, kp, kq)
    ensures var w, n := WithoutReminder(v, u, kp, kq), FindUser(Accounts(v), u.userName);
            n < |v.us| && v.us[n] == u && (forall x | x in w.us :: x in w.pending)
            && kp < |Accounts(v)[n].pending|
            && Accounts(w) == Accounts(v)[n := Account(u.userName, Removed(Accounts(v)[n].pending, kp))]
  {
    hide Data, UsersLinked, Distinct;
    UserPlace(v, u);
    PendingKnown(v);
    var w, n := WithoutReminder(v, u, kp, kq), FindUser(Accounts(v), u.userName);
    PendingIdsRemoved(v.pending[u], kp);
    assert Accounts(w) == Accounts(v)[n := Account(u.userName, Removed(Accounts(v)[n].pending, kp))];
  }

  lemma PendingIdsRemoved(rs: seq<Reminder>, k: nat)
    requires k < |rs|
    ensures PendingIds(Removed(rs, k)) == Removed(PendingIds(rs), k)
  {
  }

  lemma EntriesWithout(v: View, u: User, kp: nat, kq: nat)
    requires Data(v) && Placed(v, u, kp, kq) && Data(WithoutReminder(v, u, kp, kq))
    ensures Entries(WithoutReminder(v, u, kp, kq)) == Removed(Entries(v), kq)
  {
    var w, t := WithoutReminder(v, u, kp, kq), Removed(Entries(v), kq);
    forall i | 0 <= i < |w.q| ensures Entries(w)[i] == t[i] {
      hide *;
      EntriesAt(w, i);
      RemovedAt(v.q, kq, i);
      RemovedAt(Entries(v), kq, i);
      EntriesAt(v, if i < kq then i else i + 1);
    }
  }

  lemma EntryPlace(v: View, kq: nat)
    requires Data(v) && Distinct(v.q) && kq < |v.q|
    ensures FindEntry(Entries(v), v.q[kq].id) == kq
  {
    var k := FindEntry(Entries(v), v.q[kq].id);
    assert Entries(v)[kq].id == v.q[kq].id;
    assert v.q[k] in v.q && v.q[kq] in v.q;
  }

  /** What taking out a reminder means for the content: as the number a user gives, and as the timer does it. */
  lemma WithoutReminderAbstract(v: View, u: User, kp: nat, kq: nat)
    requires Data(v) && UsersLinked(v) && Placed(v, u, kp, kq) && Data(WithoutReminder(v, u, kp, kq))
    ensures var t := Abstract(WithoutReminder(v, u, kp, kq));
            && HasNotification(Abstract(v), u.userName, kp + 1)
            && t == ReminderModel.RemoveUserNotification(Abstract(v), u.userName, kp + 1)
            && t.queue == Removed(Abstract(v).queue, kq)
            && t.accounts == WithoutNotification(Abstract(v).accounts, u.userName, v.q[kq].id)
  {
    var n := FindUser(Accounts(v), u.userName);
    AccountsWithout(v, u, kp, kq);
    EntriesWithout(v, u, kp, kq);
    EntryPlace(v, kq);
    OwnAccount(v, u, n);
    WithoutNotificationIs(Accounts(v), n, kp);
  }

  lemma OwnAccount(v: View, u: User, n: nat)
    requires Data(v) && UsersLinked(v) && u in v.us && n == FindUser(Accounts(v), u.userName) && Distinct(v.pending[u])
    ensures n < |v.us| && v.us[n] == u && Accounts(v)[n] == Account(u.userName, PendingIds(v.pending[u]))
    ensures Distinct(PendingIds(v.pending[u]))
    ensures forall i | 0 <= i < |v.us| && i != n :: Accounts(v)[i].name != u.userName
  {
    hide UsersLinked;
    UserPlace(v, u);
    forall i | 0 <= i < |v.us| && i != n ensures Accounts(v)[i].name != u.userName {
      assert v.us[i] in v.us;
    }
    PendingIdsDistinct(v, u);
  }

  lemma PendingIdsDistinct(v: View, u: User)
    requires Data(v) && u in v.us && Distinct(v.pending[u])
    ensures Distinct(PendingIds(v.pending[u]))
  {
    var p := v.pending[u];
    forall i, j | 0 <= i < j < |p| ensures PendingIds(p)[i] != PendingIds(p)[j] {
      assert p[i] in p && p[j] in p;
    }
  }

  lemma QueueRingRemoved(head: ListHead, q: seq<Reminder>, k: nat)
    requires k < |q|
    ensures QueueRing(head, Removed(q, k)) == Removed(QueueRing(head, q), k + 1)
  {
    var a, b := QueueRing(head, Removed(q, k)), Removed(QueueRing(head, q), k + 1);
    forall i | 0 <= i < |a| ensures a[i] == b[i] {
      hide Removed;
      RemovedAt(QueueRing(head, q), k + 1, i);
      if i > 0 {
        RemovedAt(q, k, i - 1);
      }
    }
  }

  lemma NotifyRingRemoved(head: ListHead, q: seq<Reminder>, k: nat)
    requires k < |q|
    ensures NotifyRing(head, Removed(q, k)) == Removed(NotifyRing(head, q), k + 1)
  {
    var a, b := NotifyRing(head, Removed(q, k)), Removed(NotifyRing(head, q), k + 1);
    forall i | 0 <= i < |a| ensures a[i] == b[i] {
      hide Removed;
      RemovedAt(NotifyRing(head, q), k + 1, i);
      if i > 0 {
        RemovedAt(q, k, i - 1);
      }
    }
  }

  lemma WithoutReminderLinks(v: View, u: User, kp: nat, kq: nat)
    requires Placed(v, u, kp, kq) && (forall x | x in v.us :: x in v.pending)
    requires var w := WithoutReminder(v, u, kp, kq); Data(w) && UsersLinked(w)
    requires forall x | x in Elements(v.us) - {u} :: Ring(NotifyRing(x.notificationsList, v.pending[x]))
    requires Ring(Removed(NotifyRing(u.notificationsList, v.pending[u]), kp + 1))
    requires Ring(Removed(QueueRing(v.qh, v.q), kq + 1))
    ensures Links(WithoutReminder(v, u, kp, kq))
  {
    hide Data, Ring, Removed;
    var w := WithoutReminder(v, u, kp, kq);
    QueueRingRemoved(v.qh, v.q, kq);
    NotifyRingRemoved(u.notificationsList, v.pending[u], kp);
    forall x | x in w.us ensures x in w.pending && Ring(NotifyRing(x.notificationsList, w.pending[x])) {
      assert x != u ==> x in Elements(v.us) - {u};
    }
  }

  lemma PlacedIn(v: View, u: User, kp: nat, kq: nat)
    requires Data(v) && QueueLinked(v) && u in v.us && Ring(NotifyRing(u.notificationsList, v.pending[u]))
    requires kp < |v.pending[u]| && kq < |v.q| && v.pending[u][kp] == v.q[kq]
    ensures Placed(v, u, kp, kq)
  {
    var queueRing, ring := QueueRing(v.qh, v.q), NotifyRing(u.notificationsList, v.pending[u]);
    RingLinks(queueRing);
    RingLinks(ring);
    forall i, j | 0 <= i < j < |v.q| ensures v.q[i] != v.q[j] {
      assert queueRing[i + 1] != queueRing[j + 1];
    }
    forall i, j | 0 <= i < j < |v.pending[u]| ensures v.pending[u][i] != v.pending[u][j] {
      assert ring[i + 1] != ring[j + 1];
    }
  }

  lemma PlacedMeans(v: View, u: User, kp: nat, kq: nat)
    requires Placed(v, u, kp, kq)
    ensures u in v.us && u in v.pending && kp < |v.pending[u]| && kq < |v.q| && v.pending[u][kp] == v.q[kq]
    ensures v.q[kq] !in WithoutReminder(v, u, kp, kq).q
    ensures var ring := NotifyRing(u.notificationsList, v.pending[u]);
            kp + 1 < |ring| && ring[kp + 1] == v.q[kq].userNotifyList
    ensures var ring := QueueRing(v.qh, v.q); kq + 1 < |ring| && ring[kq + 1] == v.q[kq].list
  {
    RemovedFrom(v.q, kq);
  }

  /** The two lists a reminder is taken off; all others are left alone. */
  ghost function UnlinkWrites(v: View, u: User, kp: nat, kq: nat): (c: Writes)
    requires u in v.pending && kp < |v.pending[u]| && kq < |v.q|
    ensures c.v == WithoutReminder(v, u, kp, kq) && c.users && !c.queue && c.us == Elements(v.us) - {u}
  {
    var rings := NotifyRing(u.notificationsList, v.pending[u]) + QueueRing(v.qh, v.q);
    Writes(WithoutReminder(v, u, kp, kq), Elements(rings), true, false, Elements(v.us) - {u})
  }

  lemma UnlinkUntouched(v: View, u: User, kp: nat, kq: nat)
    requires Data(v) && Links(v) && Placed(v, u, kp, kq) && Data(WithoutReminder(v, u, kp, kq))
    ensures Untouched(UnlinkWrites(v, u, kp, kq))
    ensures forall r | r in UntouchedRings(UnlinkWrites(v, u, kp, kq)) :: Ring(r)
    ensures forall h | h in NotifyRing(u.notificationsList, v.pending[u]) || h in QueueRing(v.qh, v.q) ::
              h in UnlinkWrites(v, u, kp, kq).touched
    ensures forall h | h in QueueRing(v.qh, v.q) :: h !in NotifyRing(u.notificationsList, v.pending[u])
  {
    hide Data, Ring, Distinct, Removed;
    var c := UnlinkWrites(v, u, kp, kq);
    KindsApart(v);
    PendingKnown(v);
    RingsOf(v);
    forall x | x in c.us
      ensures x in c.v.us && x in c.v.pending
      ensures forall h | h in NotifyRing(x.notificationsList, c.v.pending[x]) :: h !in c.touched
      ensures Ring(NotifyRing(x.notificationsList, c.v.pending[x]))
    {
      assert c.v.pending[x] == v.pending[x];
      NotifyApart(v, x, u);
    }
    assert UsersLinked(c.v);
    UntouchedBefore(c);
  }

  lemma QueuedIn(v: View, kq: nat)
    requires Data(v) && kq < |v.q|
    ensures v.q[kq] in v.q && v.q[kq] in v.mem && v.q[kq].belongsTo != null
    ensures v.q[kq].belongsTo in v.us && v.q[kq].belongsTo in v.pending && v.q[kq] in v.pending[v.q[kq].belongsTo]
  {
    assert v.q[kq] in v.q;
  }

  lemma PendingQueued(v: View, u: User, i: nat)
    requires Data(v) && u in v.us && i < |v.pending[u]|
    ensures v.pending[u][i] in v.q && v.pending[u][i].belongsTo == u
  {
    assert v.pending[u][i] in v.pending[u];
  }

  lemma TakeOut(v: View, u: User, kp: nat, kq: nat)
    requires Data(v) && Links(v) && u in v.us && u in v.pending
    requires kp < |v.pending[u]| && kq < |v.q| && v.pending[u][kp] == v.q[kq]
    ensures Placed(v, u, kp, kq) && (forall x | x in v.us :: x in v.pending)
    ensures var w := WithoutReminder(v, u, kp, kq);
            && Data(w)
            && Abstract(w) == ReminderModel.RemoveUserNotification(Abstract(v), u.userName, kp + 1)
            && Abstract(w) == Content(WithoutNotification(Abstract(v).accounts, u.userName, v.q[kq].id),
                                      Removed(Abstract(v).queue, kq))
  {
    hide Data, Ring;
    RingsOf(v);
    PlacedIn(v, u, kp, kq);
    WithoutReminderData(v, u, kp, kq);
    WithoutReminderAbstract(v, u, kp, kq);
    PendingKnown(v);
  }

  /** A number out of range means nothing to remove. */
  lemma NotNumbered(v: View, name: string, number: int)
    requires Data(v)
    requires var k := FindUser(Abstract(v).accounts, name);
             k < |v.us| ==> v.us[k] in v.pending && !(1 <= number <= |v.pending[v.us[k]]|)
    ensures ReminderModel.RemoveUserNotification(Abstract(v), name, number) == Abstract(v)
  {
  }

  // ---------- walking along a user's list ----------

  lemma NotifyWalk(v: View, u: User, i: nat)
    requires Data(v) && u in v.us && Ring(NotifyRing(u.notificationsList, v.pending[u])) && i <= |v.pending[u]|
    ensures var p := v.pending[u];
            && (i > 0 ==> p[i - 1].userNotifyList.container == p[i - 1] && p[i - 1] in v.q)
            && (i > 0 ==> p[i - 1].userNotifyList.next
                          == if i < |p| then p[i].userNotifyList else u.notificationsList)
            && (i < |p| ==> p[i].userNotifyList != u.notificationsList && p[i] in v.q)
            && (i == 0 ==> u.notificationsList.next == if i < |p| then p[i].userNotifyList else u.notificationsList)
  {
    hide Data, Ring;
    PendingKnown(v);
    RingLink(NotifyRing(u.notificationsList, v.pending[u]), i);
    PendingLink(v, u, if i > 0 then i - 1 else i);
    PendingLink(v, u, i);
  }

  lemma PendingLink(v: View, u: User, i: nat)
    requires Data(v) && u in v.us && u in v.pending
    ensures var p := v.pending[u];
            i < |p| ==>
              p[i].userNotifyList.container == p[i] && p[i] in v.q && p[i].userNotifyList != u.notificationsList
  {
    var p := v.pending[u];
    assert i < |p| ==> p[i] in p && p[i] in v.q;
  }

  // ---------- the timer ----------

  function Texts(entries: seq<Entry>): (t: seq<string>)
    ensures |t| == |entries|
  {
    seq(|entries|, i requires 0 <= i < |entries| => entries[i].text)
  }

  lemma TextsAppend(a: seq<Entry>, e: Entry)
    ensures Texts(a + [e]) == Texts(a) + [e.text] && Texts([]) == []
  {
  }

  /** One entry counted down, all else as before. */
  twostate lemma CountedDown(v: View)
    requires old(Data(v)) && old(Links(v)) && Data(v)
    requires forall h: ListHead | h in v.mem :: h.next == old(h.next) && h.prev == old(h.prev)
    ensures Links(v)
  {
    hide Data, Ring;
    UsersKinds(v);
    QueueKinds(v);
    NotifyKinds(v);
    PendingKnown(v);
    var rings := {UsersRing(v.uh, v.us), QueueRing(v.qh, v.q)}
                 + set u | u in v.us :: NotifyRing(u.notificationsList, v.pending[u]);
    RingsKept(rings);
    forall u | u in v.us ensures Ring(NotifyRing(u.notificationsList, v.pending[u])) {
      assert NotifyRing(u.notificationsList, v.pending[u]) in rings;
    }
  }

  lemma EntryAbstract(v: View, k: nat)
    requires Data(v) && k < |v.q|
    ensures |Abstract(v).queue| == |v.q|
    ensures v.q[k] in v.q && v.q[k].belongsTo != null && v.q[k] in v.mem && Abstract(v).queue[k] == EntryOf(v.q[k])
  {
    EntriesAt(v, k);
  }

  // ---------- taking a user out ----------

  ghost function WithoutUser(v: View, k: nat): (w: View)
    requires k < |v.us|
    ensures w.uh == v.uh && w.qh == v.qh && w.us == Removed(v.us, k) && w.q == v.q && w.pending == v.pending
    ensures w.next == v.next && w.mem == v.mem - {v.us[k], v.us[k].list, v.us[k].notificationsList}
  {
    v.(us := Removed(v.us, k), mem := v.mem - {v.us[k], v.us[k].list, v.us[k].notificationsList})
  }

  lemma WithoutUserData(v: View, k: nat)
    requires Data(v) && Distinct(v.us) && k < |v.us| && v.pending[v.us[k]] == []
    ensures Data(WithoutUser(v, k)) && v.us[k] !in WithoutUser(v, k).us
    ensures forall i | 0 <= i < |v.us| - 1 :: WithoutUser(v, k).us[i] in v.us
  {
    hide Removed, Distinct;
    var w, u := WithoutUser(v, k), v.us[k];
    RemovedFrom(v.us, k);
    assert u in v.us;
    assert forall x | x in w.us :: x in v.us && x != u;
    forall x | x in v.us && x != u ensures x in w.us {
      var i :| 0 <= i < |v.us| && v.us[i] == x;
    }
  }

  lemma WithoutUserAbstract(v: View, k: nat)
    requires Data(v) && k < |v.us| && Data(WithoutUser(v, k))
    ensures Abstract(WithoutUser(v, k)) == Content(Removed(Abstract(v).accounts, k), Abstract(v).queue)
  {
    var w := WithoutUser(v, k);
    assert Accounts(w) == Removed(Accounts(v), k);
    assert Entries(w) == Entries(v);
  }

  lemma UsersRingRemoved(head: ListHead, us: seq<User>, k: nat)
    requires k < |us|
    ensures UsersRing(head, Removed(us, k)) == Removed(UsersRing(head, us), k + 1)
  {
    var a, b := UsersRing(head, Removed(us, k)), Removed(UsersRing(head, us), k + 1);
    forall i | 0 <= i < |a| ensures a[i] == b[i] {
      hide Removed;
      RemovedAt(UsersRing(head, us), k + 1, i);
      if i > 0 {
        RemovedAt(us, k, i - 1);
      }
    }
  }

  lemma WithoutUserLinks(v: View, k: nat)
    requires k < |v.us| && Data(WithoutUser(v, k)) && QueueLinked(WithoutUser(v, k))
    requires forall x | x in Elements(WithoutUser(v, k).us) ::
               x in v.pending && Ring(NotifyRing(x.notificationsList, v.pending[x]))
    requires Ring(Removed(UsersRing(v.uh, v.us), k + 1))
    ensures Links(WithoutUser(v, k))
  {
    hide Data, Ring, Removed;
    UsersRingRemoved(v.uh, v.us, k);
    var w := WithoutUser(v, k);
    forall x | x in w.us ensures x in w.pending && Ring(NotifyRing(x.notificationsList, w.pending[x])) {
      assert x in Elements(w.us);
    }
  }

  lemma UserWritesUntouched(v: View, k: nat)
    requires Data(v) && Links(v) && k < |v.us| && Data(WithoutUser(v, k))
    requires forall i | 0 <= i < |v.us| - 1 :: WithoutUser(v, k).us[i] in v.us
    ensures var w := WithoutUser(v, k);
            var c := Writes(w, Elements(UsersRing(v.uh, v.us)), false, true, Elements(w.us));
            Untouched(c) && forall r | r in UntouchedRings(c) :: Ring(r)
  {
    hide Data, Ring, Removed;
    KindsApart(v);
    PendingKnown(v);
    RingsOf(v);
    var w := WithoutUser(v, k);
    var c := Writes(w, Elements(UsersRing(v.uh, v.us)), false, true, Elements(w.us));
    forall x | x in c.us ensures x in v.us && x in c.v.pending {
    }
    assert QueueLinked(w);
    UntouchedBefore(c);
  }

  /** Which accounts a removal by name still has to look at, from position `i` of what is `now`. */
  ghost predicate RemovalSoFar(start: seq<Account>, name: string, now: seq<Account>, i: nat) {
    i <= |now| && RemoveUser(start, name) == now[..i] + RemoveUser(now[i..], name)
  }

  lemma RemovalBegins(start: seq<Account>, name: string)
    ensures RemovalSoFar(start, name, start, 0)
  {
    assert start[0..] == start && start[..0] + RemoveUser(start, name) == RemoveUser(start, name);
  }

  lemma RemovalTakes(start: seq<Account>, name: string, now: seq<Account>, i: nat)
    requires RemovalSoFar(start, name, now, i) && i < |now| && now[i].name == name
    ensures RemovalSoFar(start, name, Removed(now, i), i)
  {
    assert now[i..][1..] == now[i + 1..];
    assert Removed(now, i)[..i] == now[..i] && Removed(now, i)[i..] == now[i + 1..];
  }

  lemma RemovalSkips(start: seq<Account>, name: string, now: seq<Account>, i: nat)
    requires RemovalSoFar(start, name, now, i) && i < |now| && now[i].name != name
    ensures RemovalSoFar(start, name, now, i + 1)
  {
    var rest := RemoveUser(now[i + 1..], name);
    assert now[i..] == [now[i]] + now[i + 1..];
    assert now[..i] + ([now[i]] + rest) == now[..i] + [now[i]] + rest;
    assert now[..i + 1] == now[..i] + [now[i]];
  }

  lemma RemovalGoesOn(start: seq<Account>, name: string, now: seq<Account>, i: nat)
    requires RemovalSoFar(start, name, now, i) && i < |now|
    ensures if now[i].name == name then RemovalSoFar(start, name, Removed(now, i), i)
            else RemovalSoFar(start, name, now, i + 1)
  {
    if now[i].name == name {
      RemovalTakes(start, name, now, i);
    } else {
      RemovalSkips(start, name, now, i);
    }
  }

  lemma RemovalEnds(start: seq<Account>, name: string, now: seq<Account>)
    requires RemovalSoFar(start, name, now, |now|)
    ensures RemoveUser(start, name) == now
  {
    assert now[..|now|] + [] == now;
  }

  lemma UserNotIn(v: View, u: User)
    requires Data(v) && u !in v.mem
    ensures u !in v.us
  {
  }

  lemma UserFound(v: View, name: string)
    requires Data(v)
    ensures var k := FindUser(Abstract(v).accounts, name);
            k <= |v.us| && (k == |v.us| ==> forall u | u in v.us :: u.userName != name)
  {
    var k := FindUser(Abstract(v).accounts, name);
    forall u | u in v.us ensures k == |v.us| ==> u.userName != name {
      var i :| 0 <= i < |v.us| && v.us[i] == u;
      assert Accounts(v)[i].name == u.userName;
    }
  }

  lemma UserMissing(v: View, name: string, title: string, time: int)
    requires Data(v)
    ensures |Abstract(v).accounts| == |v.us|
    ensures FindUser(Abstract(v).accounts, name) == |v.us| ==>
              ReminderModel.AddUserReminder(Abstract(v), name, title, time, v.next) == Abstract(v)
  {
  }

  lemma UserIn(v: View, name: string)
    requires Data(v) && FindUser(Abstract(v).accounts, name) < |v.us|
    ensures |Abstract(v).accounts| == |v.us|
    ensures var u := v.us[FindUser(Abstract(v).accounts, name)]; u in v.us && u.userName == name
  {
    var k := FindUser(Abstract(v).accounts, name);
    assert Accounts(v)[k].name == v.us[k].userName;
  }

  lemma UserKnown(v: View, name: string)
    requires Data(v) && FindUser(Abstract(v).accounts, name) < |v.us|
    ensures ReminderModel.AddNewUser(Abstract(v), name) == Abstract(v)
  {
  }

  /** Rings of different kinds do not share links. */
  lemma KindsApart(v: View)
    requires Data(v)
    ensures forall h | h in UsersRing(v.uh, v.us) :: h in v.mem && h !in QueueRing(v.qh, v.q)
    ensures forall h | h in QueueRing(v.qh, v.q) :: h in v.mem && h !in UsersRing(v.uh, v.us)
    ensures forall u, h | u in v.us && u in v.pending && h in NotifyRing(u.notificationsList, v.pending[u]) ::
              h in v.mem && h !in UsersRing(v.uh, v.us) && h !in QueueRing(v.qh, v.q)
  {
    hide Data;
    UsersKinds(v);
    QueueKinds(v);
    NotifyKinds(v);
  }

  lemma RingsOf(v: View)
    requires Data(v) && Links(v)
    ensures UsersLinked(v) && QueueLinked(v) && Ring(UsersRing(v.uh, v.us)) && Ring(QueueRing(v.qh, v.q))
    ensures |UsersRing(v.uh, v.us)| == |v.us| + 1 && UsersRing(v.uh, v.us)[0] == v.uh
    ensures |QueueRing(v.qh, v.q)| == |v.q| + 1 && QueueRing(v.qh, v.q)[0] == v.qh
    ensures forall u | u in Elements(v.us) :: u in v.pending && Ring(NotifyRing(u.notificationsList, v.pending[u]))
  {
    hide Ring;
  }

  lemma NotifyRingShape(head: ListHead, rs: seq<Reminder>)
    ensures |NotifyRing(head, rs)| == |rs| + 1 && NotifyRing(head, rs)[0] == head
  {
  }

  class Store {
    const usersList: ListHead
    const remindersList: ListHead
    /** The texts of the alerts printed so far. */
    var console: seq<string>

    ghost var view: View
    ghost var Repr: set<object>

    ghost predicate Valid()
      reads this, Repr
    {
      && view.uh == usersList && view.qh == remindersList && view.mem == Repr && this !in Repr
      && Data(view) && Links(view)
    }

    ghost function Abs(): (s: Content)
      requires Valid()
      reads this, Repr
    {
      Abstract(view)
    }

    /** What the abstract content says about the memory: the queue and each user's list hold exactly these texts, times
        and owners. */
    lemma AbsMeans()
      requires Valid()
      ensures |Abs().queue| == |view.q| && |Abs().accounts| == |view.us|
      ensures forall i | 0 <= i < |view.q| ::
                view.q[i].belongsTo != null && view.q[i].belongsTo in Repr &&
                Abs().queue[i] == Entry(view.q[i].id, view.q[i].belongsTo.userName, view.q[i].notificationText,
                                        view.q[i].ellapseTime)
      ensures forall i | 0 <= i < |view.us| ::
                view.us[i] in view.pending && Abs().accounts[i].name == view.us[i].userName &&
                |Abs().accounts[i].pending| == |view.pending[view.us[i]]|
      ensures forall i, k | 0 <= i < |view.us| && 0 <= k < |Abs().accounts[i].pending| ::
                Abs().accounts[i].pending[k] == view.pending[view.us[i]][k].id
    {
      assert forall i | 0 <= i < |view.q| :: view.q[i] in view.q;
      assert forall i | 0 <= i < |view.us| :: view.us[i] in view.us;
    }

    /** And about the links: from the head of the queue `next` leads through its reminders and back, and likewise from
        the head of the users and from that of each user's list; `prev` leads the other way. */
    lemma LinksMean(u: User)
      requires Valid() && u in view.us
      ensures u in view.pending
      ensures Ring(QueueRing(remindersList, view.q)) && Ring(UsersRing(usersList, view.us))
      ensures Ring(NotifyRing(u.notificationsList, view.pending[u]))
    {
      hide Ring;
    }

    lemma EmptyStore()
      requires usersList.member == USERS_HEAD && remindersList.member == REMINDERS_HEAD
      requires view == View(usersList, remindersList, [], [], map[], 0, Repr)
      requires usersList in Repr && remindersList in Repr && this !in Repr
      requires Ring([usersList]) && Ring([remindersList])
      ensures Valid() && Abs() == Content([], [])
    {
      EmptyIsFine(view);
    }

    lemma ValidParts()
      requires Valid()
      ensures view.uh == usersList && view.qh == remindersList && view.mem == Repr && this !in Repr
      ensures Data(view) && Links(view) && Abs() == Abstract(view)
    {
    }

    lemma PartsValid()
      requires view.uh == usersList && view.qh == remindersList && view.mem == Repr && this !in Repr
      requires Data(view) && Links(view)
      ensures Valid() && Abs() == Abstract(view)
    {
    }

    constructor ()
      ensures Valid() && fresh(Repr) && Abs() == Content([], []) && console == [] && view.next == 0
    {
      usersList := new ListHead(USERS_HEAD);
      remindersList := new ListHead(REMINDERS_HEAD);
      console, Repr := [], {usersList, remindersList};
      view := View(usersList, remindersList, [], [], map[], 0, {usersList, remindersList});
      new;
      hide *;
      assert fresh(Repr);
      InitListHead(usersList);
      InitListHead(remindersList);
      EmptyStore();
    }

    method FindUserEntry(name: string) returns (user: User?)
      requires Valid()
      ensures var k := FindUser(Abs().accounts, name);
              if k < |view.us| then user == view.us[k] else user == null
    {
      hide Data, Links, Abstract, Ring, UsersRing, Distinct;
      ghost var us, ring, i := view.us, UsersRing(usersList, view.us), 0;
      UsersWalk(view, 0);
      var ptr := usersList.next;
      while ptr != usersList
        invariant i <= |us| && ptr == if i < |us| then us[i].list else usersList
        invariant forall j | 0 <= j < i :: us[j].userName != name
        decreases |us| - i
      {
        UsersWalk(view, i + 1);
        var entry := ptr.container as User;
        if entry.userName == name {
          UserAt(view, name, i);
          return entry;
        }
        ptr := ptr.next;
        i := i + 1;
      }
      UsersWalk(view, i);
      UserAt(view, name, i);
      return null;
    }

    lemma OthersUntouched(c: Writes)
      requires Data(c.v) && Links(c.v) && c.touched == Elements(UsersRing(c.v.uh, c.v.us))
      requires !c.users && c.us == Elements(c.v.us)
      ensures Untouched(c)
    {
      hide Data;
      KindsApart(c.v);
      PendingKnown(c.v);
    }

    lemma QueueUntouchedByUser(c: Writes, u: User)
      requires Data(c.v) && u in c.v.us && c.touched == Elements(NotifyRing(u.notificationsList, c.v.pending[u]))
      requires c.us == Elements(c.v.us) - {u}
      ensures Untouched(c)
    {
      hide Data;
      KindsApart(c.v);
      PendingKnown(c.v);
      forall w | w in c.us
        ensures w in c.v.us && w in c.v.pending
        ensures forall h | h in NotifyRing(w.notificationsList, c.v.pending[w]) :: h !in c.touched
      {
        NotifyApart(c.v, w, u);
      }
    }

    lemma UsersUntouchedByQueue(c: Writes)
      requires Data(c.v) && c.touched == Elements(QueueRing(c.v.qh, c.v.q))
      requires !c.queue && c.us <= Elements(c.v.us)
      ensures Untouched(c)
    {
      hide Data;
      KindsApart(c.v);
      PendingKnown(c.v);
    }

    lemma UserAdded(v: View, u: User)
      requires Data(v) && QueueLinked(v) && UserOk(u) && u !in v.mem
      requires forall w | w in Elements(v.us) :: Ring(NotifyRing(w.notificationsList, v.pending[w]))
      requires Ring([u.notificationsList]) && Ring(Inserted(UsersRing(v.uh, v.us), |v.us| + 1, u.list))
      requires FindUser(Abstract(v).accounts, u.userName) == |v.us|
      requires view == WithUser(v, u) && Repr == view.mem && v.uh == usersList && v.qh == remindersList
      requires this !in Repr
      ensures Valid() && Abs() == ReminderModel.AddNewUser(Abstract(v), u.userName) && view.next == v.next
    {
      hide Data, Ring;
      UserFound(v, u.userName);
      UserNotIn(v, u);
      WithUserData(v, u);
      WithUserAbstract(v, u);
      WithUserLinks(v, u);
    }

    /** The two links of a user that has just been allocated. */
    method LinkUser(newUser: User, ghost v: View)
      requires Data(v) && Links(v) && v.uh == usersList && newUser.list != newUser.notificationsList
      requires newUser.list !in v.mem && newUser.notificationsList !in v.mem
      modifies newUser.list`next, newUser.list`prev, newUser.notificationsList`next, newUser.notificationsList`prev
      modifies v.mem
      ensures Data(v) && QueueLinked(v) && Abstract(v) == old(Abstract(v))
      ensures forall w | w in Elements(v.us) :: Ring(NotifyRing(w.notificationsList, v.pending[w]))
      ensures Ring([newUser.notificationsList]) && Ring(Inserted(UsersRing(v.uh, v.us), |v.us| + 1, newUser.list))
    {
      hide *;
      ghost var ring := UsersRing(v.uh, v.us);
      ghost var c := Writes(v, Elements(ring), false, true, Elements(v.us));
      RingsOf(v);
      KindsApart(v);
      RingLink(ring, 0);
      OthersUntouched(c);
      UntouchedBefore(c);
      ElementsAre(ring);
      ElementsAre(v.us);
      InitListHead(newUser.notificationsList);
      ListAddTail(newUser.list, usersList, ring, 0);
      LinkStep(c);
    }

    method AddNewUser(name: string, memory: bool)
      requires Valid()
      modifies this, Repr
      ensures Valid() && fresh(Repr - old(Repr))
      ensures Abs() == if memory then ReminderModel.AddNewUser(old(Abs()), name) else old(Abs())
      ensures console == old(console) && view.next == old(view.next)
    {
      hide *;
      var existing := FindUserEntry(name);
      ValidParts();
      ghost var v := view;
      UserFound(v, name);
      if existing == null {
        if !memory {
          return;
        }
        var newUser := new User(name);
        LinkUser(newUser, v);
        view := WithUser(v, newUser);
        Repr := Repr + {newUser, newUser.list, newUser.notificationsList};
        UserAdded(v, newUser);
      } else {
        UserKnown(v, name);
      }
    }

    /** The new reminder goes in front of the first entry that has longer to wait. */
    method InsertReminderEntryToGlobalList(newEntry: Reminder, ghost v: View) returns (ghost k: nat)
      requires Data(v) && QueueLinked(v) && v.qh == remindersList && newEntry.list !in v.mem
      modifies newEntry.list`next, newEntry.list`prev
      modifies QueueRing(v.qh, v.q)`next, QueueRing(v.qh, v.q)`prev
      ensures k == InsertPoint(old(Entries(v)), newEntry.ellapseTime) && k <= |v.q|
      ensures Ring(Inserted(QueueRing(v.qh, v.q), k + 1, newEntry.list))
    {
      hide *;
      ghost var ring, i := QueueRing(v.qh, v.q), 0;
      QueueWalk(v, 0);
      var ptr := remindersList.next;
      while ptr != remindersList
        invariant i <= |v.q| && ptr == if i < |v.q| then v.q[i].list else remindersList
        invariant forall j | 0 <= j < i :: v.q[j].ellapseTime <= newEntry.ellapseTime
        invariant Data(v) && QueueLinked(v) && Entries(v) == old(Entries(v))
        decreases |v.q| - i
      {
        QueueWalk(v, i + 1);
        var entry := ptr.container as Reminder;
        if entry.ellapseTime > newEntry.ellapseTime {
          QueuePoint(v, newEntry.ellapseTime, i);
          QueueRingIn(v);
          RingLink(ring, i + 1);
          ListAddTail(newEntry.list, ptr, ring, i + 1);
          return i;
        }
        ptr := ptr.next;
        i := i + 1;
      }
      QueueWalk(v, i);
      QueuePoint(v, newEntry.ellapseTime, i);
      QueueRingIn(v);
      RingLink(ring, 0);
      ListAddTail(newEntry.list, remindersList, ring, 0);
      return i;
    }

    method LinkPending(newReminder: Reminder, user: User, ghost v: View)
      requires Data(v) && Links(v) && user in v.us
      requires newReminder.list !in v.mem && newReminder.userNotifyList !in v.mem
      requires newReminder.list != newReminder.userNotifyList
      modifies newReminder.list`next, newReminder.list`prev
      modifies newReminder.userNotifyList`next, newReminder.userNotifyList`prev
      modifies NotifyRing(user.notificationsList, v.pending[user])`next
      modifies NotifyRing(user.notificationsList, v.pending[user])`prev
      ensures Data(v) && UsersLinked(v) && QueueLinked(v) && Abstract(v) == old(Abstract(v))
      ensures forall w | w in Elements(v.us) - {user} :: Ring(NotifyRing(w.notificationsList, v.pending[w]))
      ensures Ring(Inserted(NotifyRing(user.notificationsList, v.pending[user]), |v.pending[user]| + 1,
                            newReminder.userNotifyList))
    {
      hide *;
      PendingKnown(v);
      ghost var ring := NotifyRing(user.notificationsList, v.pending[user]);
      ghost var c := Writes(v, Elements(ring), true, true, Elements(v.us) - {user});
      ElementsAre(v.us);
      ElementsAre(ring);
      RingsOf(v);
      KindsApart(v);
      NotifyRingShape(user.notificationsList, v.pending[user]);
      RingLink(ring, 0);
      QueueUntouchedByUser(c, user);
      UntouchedBefore(c);
      InitListHead(newReminder.list);
      InitListHead(newReminder.userNotifyList);
      ListAddTail(newReminder.userNotifyList, user.notificationsList, ring, 0);
      LinkStep(c);
    }

    ghost function LongerRing(v: View, u: User, r: Reminder): (ring: seq<ListHead>)
      requires u in v.pending
      ensures ring == Inserted(NotifyRing(u.notificationsList, v.pending[u]), |v.pending[u]| + 1, r.userNotifyList)
    {
      Inserted(NotifyRing(u.notificationsList, v.pending[u]), |v.pending[u]| + 1, r.userNotifyList)
    }

    method LinkQueue(newReminder: Reminder, user: User, ghost v: View) returns (ghost k: nat)
      requires Data(v) && user in v.us && v.qh == remindersList && UsersLinked(v) && QueueLinked(v)
      requires forall w | w in Elements(v.us) - {user} :: Ring(NotifyRing(w.notificationsList, v.pending[w]))
      requires newReminder.list !in v.mem && newReminder.userNotifyList !in v.mem
      requires newReminder.list != newReminder.userNotifyList
      requires Ring(LongerRing(v, user, newReminder))
      modifies newReminder.list`next, newReminder.list`prev
      modifies QueueRing(v.qh, v.q)`next, QueueRing(v.qh, v.q)`prev
      ensures Data(v) && UsersLinked(v) && Abstract(v) == old(Abstract(v))
      ensures forall w | w in Elements(v.us) - {user} :: Ring(NotifyRing(w.notificationsList, v.pending[w]))
      ensures Ring(LongerRing(v, user, newReminder))
      ensures k <= |v.q| && k == InsertPoint(Entries(v), newReminder.ellapseTime)
      ensures Ring(Inserted(QueueRing(v.qh, v.q), k + 1, newReminder.list))
    {
      hide *;
      PendingKnown(v);
      ghost var ring, longer := QueueRing(v.qh, v.q), LongerRing(v, user, newReminder);
      ghost var c := Writes(v, Elements(ring), true, false, Elements(v.us) - {user});
      assert allocated(v) && allocated(ring) && allocated(Elements(ring)) && allocated(Elements(v.us));
      assert allocated(Elements(v.us) - {user}) && allocated(c);
      KindsApart(v);
      LongerRingApart(v, user, newReminder);
      ElementsAre(v.us);
      ElementsAre(ring);
      UsersUntouchedByQueue(c);
      UntouchedBefore(c);
      EntriesOf(v);
      k := InsertReminderEntryToGlobalList(newReminder, v);
      LinkStep(c);
      RingKept(longer);
      EntriesOf(v);
    }

    /** Puts the new reminder on its user's list, then on the queue. */
    method LinkReminder(newReminder: Reminder, user: User, ghost v: View) returns (ghost k: nat)
      requires Data(v) && Links(v) && user in v.us && v.qh == remindersList
      requires newReminder.list !in v.mem && newReminder.userNotifyList !in v.mem
      requires newReminder.list != newReminder.userNotifyList && newReminder !in v.mem && ReminderOk(newReminder)
      modifies newReminder.list`next, newReminder.list`prev
      modifies newReminder.userNotifyList`next, newReminder.userNotifyList`prev
      modifies newReminder`belongsTo, v.mem
      ensures newReminder.belongsTo == user && ReminderOk(newReminder)
      ensures Data(v) && UsersLinked(v) && Abstract(v) == old(Abstract(v))
      ensures forall w | w in Elements(v.us) - {user} :: Ring(NotifyRing(w.notificationsList, v.pending[w]))
      ensures Ring(LongerRing(v, user, newReminder))
      ensures k <= |v.q| && k == InsertPoint(Entries(v), newReminder.ellapseTime)
      ensures Ring(Inserted(QueueRing(v.qh, v.q), k + 1, newReminder.list))
    {
      hide *;
      PendingKnown(v);
      KindsApart(v);
      LinkPending(newReminder, user, v);
      k := LinkQueue(newReminder, user, v);
      newReminder.belongsTo := user;
    }

    lemma EntriesOf(v: View)
      requires Data(v)
      ensures Abstract(v).queue == Entries(v)
    {
    }

    lemma LongerRingApart(v: View, u: User, r: Reminder)
      requires Data(v) && u in v.us && r.list !in v.mem && r.userNotifyList !in v.mem && r.list != r.userNotifyList
      ensures forall h | h in LongerRing(v, u, r) :: h !in QueueRing(v.qh, v.q) && h != r.list
    {
      hide Data;
      KindsApart(v);
      PendingKnown(v);
    }

    /** Takes a linked reminder into the ghost state. */
    ghost method AdoptReminder(v: View, u: User, r: Reminder, k: nat)
      requires Data(v) && UsersLinked(v) && u in v.us && ReminderOk(r) && r.belongsTo == u && r.id == v.next
      requires r !in v.mem && k <= |v.q| && k == InsertPoint(Entries(v), r.ellapseTime)
      requires forall w | w in Elements(v.us) - {u} :: Ring(NotifyRing(w.notificationsList, v.pending[w]))
      requires Ring(LongerRing(v, u, r)) && Ring(Inserted(QueueRing(v.qh, v.q), k + 1, r.list))
      requires v.uh == usersList && v.qh == remindersList && this !in v.mem
      modifies this`view, this`Repr
      ensures Valid() && view.next == v.next + 1 && Repr == v.mem + {r, r.list, r.userNotifyList}
      ensures Abs()
           == ReminderModel.AddUserReminder(old(Abstract(v)), u.userName, r.notificationText, r.ellapseTime, v.next)
    {
      hide *;
      PendingKnown(v);
      WithReminderData(v, u, r, k);
      WithReminderAbstract(v, u, r, k);
      WithReminderLinks(v, u, r, k);
      view := WithReminder(v, u, r, k);
      Repr := view.mem;
      PartsValid();
    }

    method AddUserReminder(name: string, title: string, time: int, memory: bool)
      requires Valid()
      modifies this, Repr
      ensures Valid() && fresh(Repr - old(Repr)) && console == old(console)
      ensures Abs() == if memory then ReminderModel.AddUserReminder(old(Abs()), name, title, time, old(view.next))
                       else old(Abs())
      ensures view.next == if memory && FindUser(old(Abs()).accounts, name) < |old(Abs()).accounts|
                           then old(view.next) + 1 else old(view.next)
    {
      hide *;
      var user := FindUserEntry(name);
      ValidParts();
      ghost var v := view;
      UserFound(v, name);
      if user == null || !memory {
        UserMissing(v, name, title, time);
        return;
      }
      UserIn(v, name);
      var newReminder := new Reminder(title, time, v.next);
      ghost var k := LinkReminder(newReminder, user, v);
      AdoptReminder(v, user, newReminder, k);
    }

    /** Counts along the user's list up to `index`; what it stops at otherwise is the last reminder, if any. */
    method FindNotification(user: User, index: int, ghost v: View)
      returns (found: bool, pos: ListHead, reminder: Reminder?)
      requires Data(v) && user in v.us && user in v.pending
      requires Ring(NotifyRing(user.notificationsList, v.pending[user]))
      ensures found <==> 0 <= index < |v.pending[user]|
      ensures found ==> reminder == v.pending[user][index] && pos == v.pending[user][index].userNotifyList
      ensures !found ==> pos == user.notificationsList
    {
      hide *;
      ghost var i, p := 0, v.pending[user];
      NotifyWalk(v, user, 0);
      found := false;
      reminder := null;
      var loopCounter := 0;
      pos := user.notificationsList.next;
      while pos != user.notificationsList
        invariant loopCounter == i <= |p| && (0 <= index ==> i <= index)
        invariant pos == if i < |p| then p[i].userNotifyList else user.notificationsList
        invariant Data(v) && Ring(NotifyRing(user.notificationsList, p))
        decreases |p| - i
      {
        NotifyWalk(v, user, i + 1);
        reminder := pos.container as Reminder;
        if loopCounter == index {
          found := true;
          return;
        }
        loopCounter := loopCounter + 1;
        pos := pos.next;
        i := i + 1;
      }
      NotifyWalk(v, user, i);
    }

    method FindInQueue(reminder: Reminder?, ghost v: View) returns (found: bool, pos: ListHead, ghost kq: nat)
      requires Data(v) && QueueLinked(v) && v.qh == remindersList
      ensures found <==> reminder != null && reminder in v.q
      ensures found ==> kq < |v.q| && v.q[kq] == reminder && pos == v.q[kq].list
    {
      hide *;
      ghost var q := v.q;
      kq := 0;
      QueueWalk(v, 0);
      found := false;
      pos := remindersList.next;
      while pos != remindersList
        invariant kq <= |q| && pos == if kq < |q| then q[kq].list else remindersList
        invariant forall i | 0 <= i < kq :: q[i] != reminder
        decreases |q| - kq
      {
        QueueWalk(v, kq + 1);
        var entry := pos.container as Reminder;
        if entry == reminder {
          found := true;
          return;
        }
        pos := pos.next;
        kq := kq + 1;
      }
      QueueWalk(v, kq);
    }

    method FindInPending(user: User, reminder: Reminder, ghost v: View)
      returns (found: bool, pos: ListHead, ghost kp: nat)
      requires Data(v) && user in v.us && user in v.pending
      requires Ring(NotifyRing(user.notificationsList, v.pending[user]))
      ensures found <==> reminder in v.pending[user]
      ensures found ==> kp < |v.pending[user]| && v.pending[user][kp] == reminder && pos == reminder.userNotifyList
    {
      hide *;
      ghost var p := v.pending[user];
      kp := 0;
      NotifyWalk(v, user, 0);
      found := false;
      pos := user.notificationsList.next;
      while pos != user.notificationsList
        invariant kp <= |p| && pos == if kp < |p| then p[kp].userNotifyList else user.notificationsList
        invariant forall i | 0 <= i < kp :: p[i] != reminder
        invariant Data(v) && Ring(NotifyRing(user.notificationsList, p))
        decreases |p| - kp
      {
        NotifyWalk(v, user, kp + 1);
        var entry := pos.container as Reminder;
        if entry == reminder {
          found := true;
          return;
        }
        pos := pos.next;
        kp := kp + 1;
      }
      NotifyWalk(v, user, kp);
    }

    /** Takes one link out of its ring while another ring looks on. */
    method UnlinkFrom(pos: ListHead, ghost ring: seq<ListHead>, ghost k: nat, ghost other: seq<ListHead>)
      requires Ring(ring) && 1 <= k < |ring| && pos == ring[k] && Ring(other) && forall h | h in other :: h !in ring
      modifies ring`next, ring`prev
      ensures Ring(Removed(ring, k)) && Ring(other) && pos.next == null && pos.prev == null
    {
      hide *;
      RingLink(ring, k);
      ListDel(pos, ring, k);
      RingKept(other);
    }

    /** Takes the reminder out of the ghost state once it is off both lists; its memory is no longer the store's. */
    ghost method DropReminder(v: View, u: User, kp: nat, kq: nat)
      requires Placed(v, u, kp, kq) && (forall x | x in v.us :: x in v.pending)
      requires var w := WithoutReminder(v, u, kp, kq); Data(w) && UsersLinked(w)
      requires forall x | x in Elements(v.us) - {u} :: Ring(NotifyRing(x.notificationsList, v.pending[x]))
      requires Ring(Removed(NotifyRing(u.notificationsList, v.pending[u]), kp + 1))
      requires Ring(Removed(QueueRing(v.qh, v.q), kq + 1))
      requires v.uh == usersList && v.qh == remindersList && this !in v.mem
      modifies this`view, this`Repr
      ensures Valid() && view.next == v.next && Repr <= v.mem && view.q == Removed(v.q, kq)
      ensures Abs() == old(Abstract(WithoutReminder(v, u, kp, kq)))
    {
      hide *;
      PlacedMeans(v, u, kp, kq);
      WithoutReminderLinks(v, u, kp, kq);
      view := WithoutReminder(v, u, kp, kq);
      Repr := view.mem;
      PartsValid();
    }

    /** The user's list first, then the queue. */
    method UnlinkNumbered(reminder: Reminder, posUser: ListHead, posGlobal: ListHead,
                          user: User, ghost kp: nat, ghost kq: nat, ghost v: View)
      requires Data(v) && Links(v) && Placed(v, user, kp, kq) && reminder == v.q[kq]
      requires posUser == reminder.userNotifyList && posGlobal == reminder.list
      requires Data(WithoutReminder(v, user, kp, kq))
      modifies reminder`belongsTo, NotifyRing(user.notificationsList, v.pending[user])`next
      modifies NotifyRing(user.notificationsList, v.pending[user])`prev
      modifies QueueRing(v.qh, v.q)`next, QueueRing(v.qh, v.q)`prev
      ensures var w := WithoutReminder(v, user, kp, kq);
              Data(w) && UsersLinked(w) && Abstract(w) == old(Abstract(w))
      ensures forall x | x in Elements(v.us) - {user} ::
                x in v.pending && Ring(NotifyRing(x.notificationsList, v.pending[x]))
      ensures Ring(Removed(NotifyRing(user.notificationsList, v.pending[user]), kp + 1))
      ensures Ring(Removed(QueueRing(v.qh, v.q), kq + 1))
    {
      hide *;
      PlacedMeans(v, user, kp, kq);
      ghost var ring, queueRing := NotifyRing(user.notificationsList, v.pending[user]), QueueRing(v.qh, v.q);
      ghost var c := UnlinkWrites(v, user, kp, kq);
      assert allocated(v) && allocated(c);
      UnlinkUntouched(v, user, kp, kq);
      RingsOf(v);
      ElementsAre(v.us);
      NotifyRingShape(user.notificationsList, v.pending[user]);
      RingLinks(ring);
      RemovedFrom(ring, kp + 1);
      reminder.belongsTo := null;
      UnlinkFrom(posUser, ring, kp + 1, queueRing);
      UnlinkFrom(posGlobal, queueRing, kq + 1, Removed(ring, kp + 1));
      LinkStep(c);
    }

    method RemoveNumbered(reminder: Reminder, posUser: ListHead, posGlobal: ListHead, user: User,
                          ghost kp: nat, ghost kq: nat)
      requires Valid() && user in view.us && user in view.pending
      requires kp < |view.pending[user]| && kq < |view.q| && view.pending[user][kp] == view.q[kq] == reminder
      requires posUser == reminder.userNotifyList && posGlobal == reminder.list
      modifies this, Repr
      ensures Valid() && Repr <= old(Repr) && console == old(console) && view.next == old(view.next)
      ensures Abs() == ReminderModel.RemoveUserNotification(old(Abs()), user.userName, kp + 1)
    {
      hide *;
      ValidParts();
      ghost var v := view;
      TakeOut(v, user, kp, kq);
      KindsApart(v);
      QueuedIn(v, kq);
      UnlinkNumbered(reminder, posUser, posGlobal, user, kp, kq, v);
      DropReminder(v, user, kp, kq);
    }

    method RemoveUserNotification(name: string, number: int)
      requires Valid()
      modifies this, Repr
      ensures Valid() && Repr <= old(Repr) && console == old(console) && view.next == old(view.next)
      ensures Abs() == ReminderModel.RemoveUserNotification(old(Abs()), name, number)
    {
      hide *;
      var user := FindUserEntry(name);
      ValidParts();
      ghost var v := view;
      UserFound(v, name);
      if user == null {
        NotNumbered(v, name, number);
        return;
      }
      UserIn(v, name);
      PendingKnown(v);
      RingsOf(v);
      ElementsAre(v.us);
      var foundNotification, posUser, reminder := FindNotification(user, number - 1, v);
      var foundGlobal, posGlobal; ghost var kq;
      foundGlobal, posGlobal, kq := FindInQueue(reminder, v);
      if foundNotification {
        PendingQueued(v, user, number - 1);
      } else {
        NotNumbered(v, name, number);
      }
      if foundNotification && foundGlobal {
        RemoveNumbered(reminder, posUser, posGlobal, user, number - 1, kq);
      }
    }

    /** The queue first, then the user's list, which is searched for the reminder. */
    method UnlinkExpired(reminder: Reminder, ghost user: User, ghost kp: nat, ghost kq: nat, ghost v: View)
      requires Data(v) && Links(v) && Placed(v, user, kp, kq) && reminder == v.q[kq] && reminder.belongsTo == user
      requires Data(WithoutReminder(v, user, kp, kq))
      modifies NotifyRing(user.notificationsList, v.pending[user])`next
      modifies NotifyRing(user.notificationsList, v.pending[user])`prev
      modifies QueueRing(v.qh, v.q)`next, QueueRing(v.qh, v.q)`prev
      ensures var w := WithoutReminder(v, user, kp, kq);
              Data(w) && UsersLinked(w) && Abstract(w) == old(Abstract(w))
      ensures forall x | x in Elements(v.us) - {user} ::
                x in v.pending && Ring(NotifyRing(x.notificationsList, v.pending[x]))
      ensures Ring(Removed(NotifyRing(user.notificationsList, v.pending[user]), kp + 1))
      ensures Ring(Removed(QueueRing(v.qh, v.q), kq + 1))
    {
      hide *;
      PlacedMeans(v, user, kp, kq);
      ghost var ring, queueRing := NotifyRing(user.notificationsList, v.pending[user]), QueueRing(v.qh, v.q);
      ghost var c := UnlinkWrites(v, user, kp, kq);
      assert allocated(v) && allocated(c) && allocated(ring) && allocated(queueRing);
      UnlinkUntouched(v, user, kp, kq);
      RingsOf(v);
      ElementsAre(v.us);
      RingLinks(queueRing);
      assert allocated(Removed(queueRing, kq + 1));
      RemovedFrom(queueRing, kq + 1);
      UnlinkFrom(reminder.list, queueRing, kq + 1, ring);
      DataStays(v);
      var owner := reminder.belongsTo;
      if owner != null {
        var found, pos; ghost var at;
        found, pos, at := FindInPending(owner, reminder, v);
        if found {
          UnlinkFrom(pos, ring, kp + 1, Removed(queueRing, kq + 1));
        }
      }
      LinkStep(c);
    }

    /** Does nothing unless the reminder's time is up. */
    method HandleReminderExpired(reminder: Reminder, ghost kq: nat)
      requires Valid() && kq < |view.q| && view.q[kq] == reminder
      modifies this, Repr
      ensures Valid() && Repr <= old(Repr) && view.next == old(view.next)
      ensures old(reminder.ellapseTime) != 0 ==> view == old(view) && Abs() == old(Abs()) && console == old(console)
      ensures old(reminder.ellapseTime) == 0 ==>
                var e := old(Abs()).queue[kq];
                && view.q == Removed(old(view.q), kq) && console == old(console) + [e.text]
                && Abs() == Content(WithoutNotification(old(Abs()).accounts, e.owner, e.id),
                                    Removed(old(Abs()).queue, kq))
    {
      hide *;
      ValidParts();
      if reminder.ellapseTime == 0 {
        ghost var v := view;
        EntryAbstract(v, kq);
        QueuedIn(v, kq);
        ghost var user := reminder.belongsTo;
        ghost var kp :| 0 <= kp < |v.pending[user]| && v.pending[user][kp] == reminder;
        TakeOut(v, user, kp, kq);
        KindsApart(v);
        EntryFields(reminder);
        console := console + [reminder.notificationText];
        UnlinkExpired(reminder, user, kp, kq, v);
        DropReminder(v, user, kp, kq);
      }
    }

    lemma EntryFields(r: Reminder)
      requires r.belongsTo != null
      ensures EntryOf(r) == Entry(r.id, r.belongsTo.userName, r.notificationText, r.ellapseTime)
    {
    }

    method CountDown(reminder: Reminder, ghost kq: nat)
      requires Valid() && kq < |view.q| && view.q[kq] == reminder
      modifies reminder`ellapseTime
      ensures Valid() && reminder.ellapseTime == old(reminder.ellapseTime) - 1
      ensures Abs() == old(Abs()).(queue := old(Abs()).queue[kq := Counted(old(Abs()).queue[kq])])
    {
      hide *;
      ValidParts();
      ghost var v := view;
      assert allocated(v);
      QueuedIn(v, kq);
      reminder.ellapseTime := reminder.ellapseTime - 1;
      DataStays(v);
      CountedDown(v);
      PartsValid();
      CountedAbstract(Queued(v, kq));
    }

    /** One step of the timer's walk. */
    method Visit(reminder: Reminder, ghost k: nat)
      requires Valid() && k < |view.q| && view.q[k] == reminder
      modifies this, Repr
      ensures Valid() && Repr <= old(Repr) && view.next == old(view.next)
      ensures |old(view.q)| == |old(Abs()).queue| && Abs() == Visited(old(Abs()), k)
      ensures var e := old(Abs()).queue[k];
              if e.time == 1 then view.q == Removed(old(view.q), k) && console == old(console) + [e.text]
              else view.q == old(view.q) && console == old(console)
    {
      hide *;
      ValidParts();
      EntryAbstract(view, k);
      QueuedIn(view, k);
      EntryFields(reminder);
      VisitedCases(Abs(), k);
      CountDown(reminder, k);
      if reminder.ellapseTime == 0 {
        HandleReminderExpired(reminder, k);
      }
    }

    lemma VisitedCases(s: Content, k: nat)
      requires k < |s.queue|
      ensures var e, t := s.queue[k], s.(queue := s.queue[k := Counted(s.queue[k])]);
              && Counted(e).owner == e.owner && Counted(e).id == e.id && Counted(e).text == e.text
              && Counted(e).time == e.time - 1
              && (e.time == 1 ==>
                    Visited(s, k) == Content(WithoutNotification(t.accounts, e.owner, e.id), Removed(t.queue, k)))
              && (e.time != 1 ==> Visited(s, k) == t)
    {
      assert Removed(s.queue[k := Counted(s.queue[k])], k) == Removed(s.queue, k);
    }

    lemma AbsSizes()
      requires Valid()
      ensures |Abs().queue| == |view.q| && |Abs().accounts| == |view.us|
    {
    }

    lemma QueueWalkAbs(i: nat)
      requires Valid() && i <= |view.q|
      ensures |Abs().queue| == |view.q|
      ensures i < |view.q| ==>
                view.q[i] in Repr && view.q[i].list.container == view.q[i] && view.q[i].list != remindersList
      ensures i < |view.q| ==> view.q[i].list.next == if i + 1 < |view.q| then view.q[i + 1].list else remindersList
      ensures i == 0 ==> remindersList.next == if i < |view.q| then view.q[i].list else remindersList
      ensures remindersList.next != null
    {
      hide *;
      ValidParts();
      RingsOf(view);
      AbsSizes();
      QueueWalk(view, 0);
      QueueWalk(view, if i < |view.q| then i + 1 else i);
      QueueWalk(view, i);
      if i < |view.q| {
        QueuedIn(view, i);
      }
    }

    ghost method DropUserView(v: View, k: nat)
      requires k < |v.us| && Data(WithoutUser(v, k)) && QueueLinked(WithoutUser(v, k))
      requires forall x | x in Elements(WithoutUser(v, k).us) ::
                 x in v.pending && Ring(NotifyRing(x.notificationsList, v.pending[x]))
      requires Ring(Removed(UsersRing(v.uh, v.us), k + 1))
      requires v.uh == usersList && v.qh == remindersList && this !in v.mem
      modifies this`view, this`Repr
      ensures Valid() && Abs() == old(Abstract(WithoutUser(v, k))) && Repr <= v.mem
      ensures view.next == v.next && view.us == Removed(v.us, k)
    {
      hide *;
      WithoutUserLinks(v, k);
      view := WithoutUser(v, k);
      Repr := view.mem;
      PartsValid();
    }

    method UnlinkUser(pos: ListHead, ghost k: nat, ghost v: View)
      requires Data(v) && Links(v) && k < |v.us| && pos == v.us[k].list && Data(WithoutUser(v, k))
      requires forall i | 0 <= i < |v.us| - 1 :: WithoutUser(v, k).us[i] in v.us
      modifies UsersRing(v.uh, v.us)`next, UsersRing(v.uh, v.us)`prev
      ensures var w := WithoutUser(v, k); Data(w) && QueueLinked(w) && Abstract(w) == old(Abstract(w))
      ensures forall x | x in Elements(WithoutUser(v, k).us) ::
                x in v.pending && Ring(NotifyRing(x.notificationsList, v.pending[x]))
      ensures Ring(Removed(UsersRing(v.uh, v.us), k + 1))
    {
      hide *;
      ghost var ring, w := UsersRing(v.uh, v.us), WithoutUser(v, k);
      ghost var c := Writes(w, Elements(ring), false, true, Elements(w.us));
      assert allocated(v) && allocated(ring) && allocated(w) && allocated(Elements(ring)) && allocated(Elements(w.us));
      assert allocated(c);
      UserWritesUntouched(v, k);
      PendingKnown(w);
      ElementsAre(w.us);
      ElementsAre(ring);
      RingsOf(v);
      UsersRingAt(v, k);
      RingLink(ring, k + 1);
      ListDel(pos, ring, k + 1);
      LinkStep(c);
    }

    lemma UsersRingAt(v: View, k: nat)
      requires k < |v.us|
      ensures k + 1 < |UsersRing(v.uh, v.us)| && UsersRing(v.uh, v.us)[k + 1] == v.us[k].list
    {
    }

    /** The user at position `k`, which waits for nothing, is taken off the list and freed. */
    method RemoveUserAt(pos: ListHead, ghost k: nat)
      requires Valid() && k < |view.us| && pos == view.us[k].list && Abs().accounts[k].pending == []
      modifies this, Repr
      ensures Valid() && Repr <= old(Repr) && console == old(console) && view.next == old(view.next)
      ensures view.us == Removed(old(view.us), k)
      ensures Abs() == Content(Removed(old(Abs()).accounts, k), old(Abs()).queue)
    {
      hide *;
      ValidParts();
      ghost var v := view;
      RingsOf(v);
      UsersOnce(v);
      NoPending(v, k);
      WithoutUserData(v, k);
      WithoutUserAbstract(v, k);
      KindsApart(v);
      UnlinkUser(pos, k, v);
      DropUserView(v, k);
    }

    lemma NoPending(v: View, k: nat)
      requires Data(v) && k < |v.us| && Abstract(v).accounts[k].pending == []
      ensures v.us[k] in v.pending && v.pending[v.us[k]] == []
    {
      assert v.us[k] in v.us;
      assert |PendingIds(v.pending[v.us[k]])| == 0;
    }

    lemma UsersWalkAbs(i: nat)
      requires Valid() && i <= |view.us|
      ensures |Abs().accounts| == |view.us|
      ensures i < |view.us| ==> view.us[i].list.container == view.us[i] && view.us[i].list != usersList
      ensures i < |view.us| ==> view.us[i].list.next == if i + 1 < |view.us| then view.us[i + 1].list else usersList
      ensures i < |view.us| ==> Abs().accounts[i].name == view.us[i].userName
      ensures i == 0 ==> usersList.next == if i < |view.us| then view.us[i].list else usersList
      ensures usersList.next != null
    {
      hide *;
      ValidParts();
      AbsSizes();
      UsersWalk(view, 0);
      UsersWalk(view, i);
      if i < |view.us| {
        UsersWalk(view, i + 1);
        AccountName(view, i);
      }
    }

    lemma AccountName(v: View, i: nat)
      requires Data(v) && i < |v.us|
      ensures Abstract(v).accounts[i].name == v.us[i].userName
    {
    }

    /** Takes out every user of that name; such a user must not wait for any reminder. */
    method RemoveUser(name: string)
      requires Valid() && forall a | a in Abs().accounts && a.name == name :: a.pending == []
      modifies this, Repr
      ensures Valid() && Repr <= old(Repr) && console == old(console) && view.next == old(view.next)
      ensures Abs() == old(Abs()).(accounts := ReminderModel.RemoveUser(old(Abs()).accounts, name))
    {
      hide *;
      ghost var i, start := 0, Abs();
      UsersWalkAbs(0);
      RemovalBegins(start.accounts, name);
      var pos := usersList.next;
      var q := pos.next;
      while pos != usersList
        invariant Valid() && Repr <= old(Repr) && console == old(console) && view.next == old(view.next)
        invariant i <= |view.us| == |Abs().accounts| && Abs().queue == start.queue
        invariant pos == if i < |view.us| then view.us[i].list else usersList
        invariant q == pos.next
        invariant RemovalSoFar(start.accounts, name, Abs().accounts, i)
        invariant forall j | 0 <= j < |Abs().accounts| && Abs().accounts[j].name == name ::
                    Abs().accounts[j].pending == []
        decreases |view.us| - i
      {
        UsersWalkAbs(i);
        RemovalGoesOn(start.accounts, name, Abs().accounts, i);
        RemovedNext(view.us, i);
        var user := pos.container as User;
        if user.userName == name {
          StillIdle(Abs().accounts, i, name);
          RemoveUserAt(pos, i);
        } else {
          i := i + 1;
        }
        UsersWalkAbs(i);
        pos := q;
        q := pos.next;
      }
      UsersWalkAbs(i);
      RemovalEnds(start.accounts, name, Abs().accounts);
    }

    lemma StillIdle(accounts: seq<Account>, i: nat, name: string)
      requires i < |accounts|
      requires forall j | 0 <= j < |accounts| && accounts[j].name == name :: accounts[j].pending == []
      ensures var t := Removed(accounts, i);
              |t| == |accounts| - 1 && forall j | 0 <= j < |t| && t[j].name == name :: t[j].pending == []
    {
    }

    method GetNotificationsTotalCount() returns (count: nat)
      requires Valid()
      ensures count == |Abs().queue|
    {
      hide *;
      count := 0;
      QueueWalkAbs(0);
      var pos := remindersList.next;
      while pos != remindersList
        invariant count <= |view.q| == |Abs().queue|
        invariant pos == if count < |view.q| then view.q[count].list else remindersList
        decreases |view.q| - count
      {
        QueueWalkAbs(count);
        count := count + 1;
        pos := pos.next;
      }
      QueueWalkAbs(count);
    }

    method IsNotificationsListEmpty() returns (empty: bool)
      requires Valid()
      ensures empty <==> Abs().queue == []
    {
      hide *;
      QueueWalkAbs(0);
      empty := ListEmpty(remindersList);
      ListEmptyMeans(remindersList);
    }

    lemma ListEmptyMeans(head: ListHead)
      ensures ListEmpty(head) <==> head.next == head
    {
    }

    method HandleTimerTick()
      requires Valid()
      modifies this, Repr
      ensures Valid() && Repr <= old(Repr) && view.next == old(view.next)
      ensures var r := TickFrom(old(Abs()), 0); Abs() == r.0 && console == old(console) + Texts(r.1)
    {
      hide *;
      ghost var i, fired := 0, [];
      QueueWalkAbs(0);
      TextsAppend([], Entry(0, "", "", 0));
      var pos := remindersList.next;
      var q := pos.next;
      TickBegins(Abs());
      while pos != remindersList
        invariant Valid() && Repr <= old(Repr) && view.next == old(view.next) && i <= |view.q| == |Abs().queue|
        invariant pos == if i < |view.q| then view.q[i].list else remindersList
        invariant q == pos.next
        invariant TickSoFar(old(Abs()), fired, Abs(), i)
        invariant console == old(console) + Texts(fired)
        decreases |view.q| - i
      {
        QueueWalkAbs(i);
        TickGoesOn(old(Abs()), fired, Abs(), i);
        RemovedNext(view.q, i);
        var reminder := pos.container as Reminder;
        ghost var e := Abs().queue[i];
        Visit(reminder, i);
        TextsAppend(fired, e);
        if e.time == 1 {
          fired := fired + [e];
        } else {
          i := i + 1;
        }
        QueueWalkAbs(i);
        pos := q;
        q := pos.next;
      }
      QueueWalkAbs(i);
      TickEnds(old(Abs()), fired, Abs(), i);
    }
  }

  /** The tick that began at `start` has let `fired` go off, and is at position `i` of what is `s` now. */
  ghost predicate TickSoFar(start: Content, fired: seq<Entry>, s: Content, i: nat) {
    i <= |s.queue| && TickFrom(start, 0) == (TickFrom(s, i).0, fired + TickFrom(s, i).1)
  }

  lemma TickBegins(s: Content)
    ensures TickSoFar(s, [], s, 0)
  {
    assert [] + TickFrom(s, 0).1 == TickFrom(s, 0).1;
  }

  lemma TickGoesOn(start: Content, fired: seq<Entry>, s: Content, i: nat)
    requires TickSoFar(start, fired, s, i) && i < |s.queue|
    ensures var e, t := s.queue[i], Visited(s, i);
            if e.time == 1 then |t.queue| == |s.queue| - 1 && TickSoFar(start, fired + [e], t, i)
            else |t.queue| == |s.queue| && TickSoFar(start, fired, t, i + 1)
  {
    var e, t := s.queue[i], Visited(s, i);
    if e.time == 1 {
      assert fired + ([e] + TickFrom(t, i).1) == fired + [e] + TickFrom(t, i).1;
    }
  }

  lemma TickEnds(start: Content, fired: seq<Entry>, s: Content, i: nat)
    requires TickSoFar(start, fired, s, i) && i == |s.queue|
    ensures TickFrom(start, 0) == (s, fired)
  {
    assert fired + [] == fired;
  }

  lemma RemovedNext<T>(s: seq<T>, i: nat)
    requires i < |s|
    ensures |Removed(s, i)| == |s| - 1 && (i + 1 < |s| ==> Removed(s, i)[i] == s[i + 1])
  {
  }

  datatype Queued = Queued(v: View, kq: nat)

  twostate lemma CountedAbstract(c: Queued)
    requires old(Data(c.v)) && Data(c.v) && Links(c.v) && c.kq < |c.v.q|
    requires forall r | r in c.v.q :: r.belongsTo == old(r.belongsTo)
    requires forall r | r in c.v.q && r != c.v.q[c.kq] :: r.ellapseTime == old(r.ellapseTime)
    requires c.v.q[c.kq].ellapseTime == old(c.v.q[c.kq].ellapseTime) - 1
    ensures var s := old(Abstract(c.v)); Abstract(c.v) == s.(queue := s.queue[c.kq := Counted(s.queue[c.kq])])
  {
    hide Data, Links;
    var v, k := c.v, c.kq;
    var s := old(Abstract(v));
    QueueOnce(v);
    forall i | 0 <= i < |v.q| ensures Entries(v)[i] == s.queue[k := Counted(s.queue[k])][i] {
      assert v.q[i] in v.q;
      assert i != k ==> v.q[i] != v.q[k];
    }
  }

  lemma QueueOnce(v: View)
    requires Data(v) && Links(v)
    ensures Distinct(v.q)
  {
    var ring := QueueRing(v.qh, v.q);
    RingLinks(ring);
    forall i, j | 0 <= i < j < |v.q| ensures v.q[i] != v.q[j] {
      assert ring[i + 1] != ring[j + 1];
    }
  }
}
