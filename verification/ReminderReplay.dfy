/** Any sequence of calls, carried out on the store in memory, goes the way `ReminderRuns` describes: what is
proved there about whole runs holds of the linked structures.  */
module ReminderReplay {
  import opened ReminderModel
  import opened ReminderRuns
  import ReminderStore

  function AlertTexts(fired: seq<Alert>): (t: seq<string>)
    ensures |t| == |fired|
  {
    seq(|fired|, i requires 0 <= i < |fired| => fired[i].text)
  }

  /** The store's memory and output against a state of the run. */
  ghost predicate Shows(store: ReminderStore.Store, w: World)
    reads store, store.Repr
  {
    && store.Valid() && store.Abs() == w.store && store.view.next == |w.added|
    && store.console == AlertTexts(w.fired)
  }

  lemma TickTexts(w: World, entries: seq<Entry>, at: nat)
    ensures AlertTexts(w.fired + Alerts(entries, at)) == AlertTexts(w.fired) + ReminderStore.Texts(entries)
  {
  }

  method Call(store: ReminderStore.Store, ghost w: World, c: Command)
    requires Shows(store, w) && Legal(w, c)
    modifies store, store.Repr
    ensures Shows(store, Step(w, c)) && fresh(store.Repr - old(store.Repr))
  {
    match c
    case AddUser(name, memory) => store.AddNewUser(name, memory);
    case AddReminder(name, text, time, memory) => store.AddUserReminder(name, text, time, memory);
    case DropUser(name) => store.RemoveUser(name);
    case DropNotification(name, number) => store.RemoveUserNotification(name, number);
    case Tick =>
      store.HandleTimerTick();
      TickTexts(w, TickFrom(w.store, 0).1, w.now + 1);
  }

  lemma NothingYet(store: ReminderStore.Store)
    requires store.Valid() && store.Abs() == Content([], []) && store.console == [] && store.view.next == 0
    ensures Shows(store, EMPTY)
  {
  }

  lemma ShowsMeans(store: ReminderStore.Store, w: World)
    requires Shows(store, w)
    ensures store.Valid() && store.Abs() == w.store && |store.console| == |w.fired|
    ensures forall i | 0 <= i < |store.console| :: store.console[i] == w.fired[i].text
  {
  }

  method Replay(cs: seq<Command>) returns (store: ReminderStore.Store)
    requires LegalRun(EMPTY, cs)
    ensures store.Valid() && fresh(store) && fresh(store.Repr)
    ensures store.Abs() == Run(EMPTY, cs).store && |store.console| == |Run(EMPTY, cs).fired|
    ensures forall i | 0 <= i < |store.console| :: store.console[i] == Run(EMPTY, cs).fired[i].text
  {
    hide Shows, Step, Legal;
    store := new ReminderStore.Store();
    NothingYet(store);
    ghost var w := EMPTY;
    for i := 0 to |cs|
      invariant Shows(store, w) && fresh(store) && fresh(store.Repr)
      invariant LegalRun(w, cs[i..]) && Run(w, cs[i..]) == Run(EMPTY, cs)
    {
      assert cs[i..][0] == cs[i] && cs[i..][1..] == cs[i + 1..];
      Call(store, w, cs[i]);
      w := Step(w, cs[i]);
    }
    ShowsMeans(store, w);
  }
}
