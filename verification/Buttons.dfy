/** The three push buttons: samples of the pins are counted, and the length of a press decides what is called when the
button is let go.  */
module Buttons {

  const COUNTER_UP_PIN := 21
  const COUNTER_DOWN_PIN := 20
  const CONTROL_BUTTON_PIN := 16
  const BUTTONS_COUNT := 3
  const SHORT_CLICK_THRESHOLD := 1000
  const LONG_CLICK_THRESHOLD := 6000

  /** What happens to the module: a sample of a pin (0 is pressed, 1 released), or a change of a handler. */
  datatype Action =
    | Sample(pin: int, value: int)
    | SetShort(pin: int, attached: bool)
    | SetLong(pin: int, attached: bool)

  /** The handlers it calls. */
  datatype Call = ShortClick(pin: int) | LongClick(pin: int)

  predicate Known(pin: int) {
    pin == COUNTER_UP_PIN || pin == COUNTER_DOWN_PIN || pin == CONTROL_BUTTON_PIN
  }

  // ---------- what is to be called ----------

  /** How many samples of a kind a pin has had. */
  function Samples(trace: seq<Action>, pin: int, value: int): (n: nat) {
    if trace == [] then 0
    else Samples(trace[..|trace| - 1], pin, value) + if trace[|trace| - 1] == Sample(pin, value) then 1 else 0
  }

  /** Where the last release of a button is over: the position behind the last sample of 1. */
  function LastRelease(trace: seq<Action>, pin: int): (k: nat)
    ensures k <= |trace| && (k > 0 ==> trace[k - 1] == Sample(pin, 1))
    ensures forall i | k <= i < |trace| :: trace[i] != Sample(pin, 1)
  {
    if trace == [] then 0
    else if trace[|trace| - 1] == Sample(pin, 1) then |trace|
    else LastRelease(trace[..|trace| - 1], pin)
  }

  /** How long a button has been down: the pressed samples since it was last let go, in between or not. */
  function Pressed(trace: seq<Action>, pin: int): (n: nat) {
    Samples(trace[LastRelease(trace, pin)..], pin, 0)
  }

  function ShortAttached(trace: seq<Action>, pin: int): (b: bool) {
    if trace == [] then false
    else
      var a := trace[|trace| - 1];
      if a.SetShort? && a.pin == pin then a.attached else ShortAttached(trace[..|trace| - 1], pin)
  }

  function LongAttached(trace: seq<Action>, pin: int): (b: bool) {
    if trace == [] then false
    else
      var a := trace[|trace| - 1];
      if a.SetLong? && a.pin == pin then a.attached else LongAttached(trace[..|trace| - 1], pin)
  }

  /** What the next action makes the module call. */
  function CallsAt(before: seq<Action>, a: Action): (calls: seq<Call>) {
    if !(a.Sample? && a.value == 1 && Known(a.pin)) then []
    else if 0 < Pressed(before, a.pin) < SHORT_CLICK_THRESHOLD && ShortAttached(before, a.pin) then [ShortClick(a.pin)]
    else if Pressed(before, a.pin) > LONG_CLICK_THRESHOLD && LongAttached(before, a.pin) then [LongClick(a.pin)]
    else []
  }

  function Expected(trace: seq<Action>): (calls: seq<Call>) {
    if trace == [] then []
    else Expected(trace[..|trace| - 1]) + CallsAt(trace[..|trace| - 1], trace[|trace| - 1])
  }

  lemma PressedNext(trace: seq<Action>, a: Action, pin: int)
    ensures Pressed(trace + [a], pin) == if a == Sample(pin, 0) then Pressed(trace, pin) + 1
                                         else if a == Sample(pin, 1) then 0 else Pressed(trace, pin)
  {
    var next, k := trace + [a], LastRelease(trace, pin);
    assert next[..|trace|] == trace;
    if a == Sample(pin, 1) {
      assert next[|next|..] == [];
    } else {
      assert next[k..] == trace[k..] + [a];
      assert (trace[k..] + [a])[..|trace[k..]|] == trace[k..];
    }
  }

  lemma HandlersNext(trace: seq<Action>, a: Action, pin: int)
    ensures ShortAttached(trace + [a], pin)
         == if a.SetShort? && a.pin == pin then a.attached else ShortAttached(trace, pin)
    ensures LongAttached(trace + [a], pin)
         == if a.SetLong? && a.pin == pin then a.attached else LongAttached(trace, pin)
  {
    assert (trace + [a])[..|trace|] == trace;
  }

  lemma ExpectedNext(trace: seq<Action>, a: Action)
    ensures Expected(trace + [a]) == Expected(trace) + CallsAt(trace, a)
  {
    assert (trace + [a])[..|trace|] == trace;
  }

  lemma {:induction false} SamplesAre(trace: seq<Action>, pin: int, value: int)
    ensures Samples(trace, pin, value) == multiset(trace)[Sample(pin, value)]
  {
    if trace != [] {
      SamplesAre(trace[..|trace| - 1], pin, value);
      assert trace == trace[..|trace| - 1] + [trace[|trace| - 1]];
    }
  }

  /** A handler is attached if it has been, and was not detached later. */
  lemma {:induction false} AttachedIff(trace: seq<Action>, pin: int)
    ensures ShortAttached(trace, pin) <==>
              exists i :: 0 <= i < |trace| && trace[i] == SetShort(pin, true) &&
                forall j | i < j < |trace| :: trace[j] != SetShort(pin, false)
    ensures LongAttached(trace, pin) <==>
              exists i :: 0 <= i < |trace| && trace[i] == SetLong(pin, true) &&
                forall j | i < j < |trace| :: trace[j] != SetLong(pin, false)
  {
    if trace != [] {
      var front, n := trace[..|trace| - 1], |trace| - 1;
      AttachedIff(front, pin);
      assert forall i | 0 <= i < n :: front[i] == trace[i];
    }
  }

  lemma PressLength(before: seq<Action>, press: seq<Action>, pin: int)
    requires before == [] || before[|before| - 1] == Sample(pin, 1)
    requires Sample(pin, 1) !in press
    ensures Pressed(before + press, pin) == multiset(press)[Sample(pin, 0)]
  {
    hide Samples;
    var trace := before + press;
    var k := LastRelease(trace, pin);
    assert |before| > 0 ==> trace[|before| - 1] == Sample(pin, 1);
    assert forall i | |before| <= i < |trace| :: trace[i] in press;
    assert k == |before| && trace[k..] == press;
    SamplesAre(press, pin, 0);
  }

  /** A press of n samples that ends with a release calls the short handler exactly for n from 1 to 999, and the long
      one exactly for n above 6000, if it is attached, whatever else happened before, in between or to other buttons. */
  lemma OnePress(before: seq<Action>, press: seq<Action>, pin: int)
    requires before == [] || before[|before| - 1] == Sample(pin, 1)
    requires Sample(pin, 1) !in press && (pin == 21 || pin == 20 || pin == 16)
    ensures var n, trace := multiset(press)[Sample(pin, 0)], before + press;
      Expected(trace + [Sample(pin, 1)]) == Expected(trace)
        + if 0 < n < 1000 && (exists i :: 0 <= i < |trace| && trace[i] == SetShort(pin, true) &&
                                forall j | i < j < |trace| :: trace[j] != SetShort(pin, false))
          then [ShortClick(pin)]
          else if n > 6000 && (exists i :: 0 <= i < |trace| && trace[i] == SetLong(pin, true) &&
                                 forall j | i < j < |trace| :: trace[j] != SetLong(pin, false))
          then [LongClick(pin)] else []
  {
    hide Pressed, ShortAttached, LongAttached, Expected;
    var trace := before + press;
    ExpectedNext(trace, Sample(pin, 1));
    PressLength(before, press, pin);
    AttachedIff(trace, pin);
  }

  /** Nothing else calls anything, and nothing is called before the first action. */
  lemma OnlyReleasesCall(trace: seq<Action>, a: Action)
    requires !a.Sample? || a.value != 1 || !(a.pin == 21 || a.pin == 20 || a.pin == 16)
    ensures Expected([]) == [] && Expected(trace + [a]) == Expected(trace)
  {
    ExpectedNext(trace, a);
  }

  /** A handler that nobody attached is never called. */
  lemma {:induction false} OnlyAttachedCalls(trace: seq<Action>, pin: int)
    ensures SetShort(pin, true) !in trace ==> ShortClick(pin) !in Expected(trace)
    ensures SetLong(pin, true) !in trace ==> LongClick(pin) !in Expected(trace)
  {
    if trace != [] {
      var front, a := trace[..|trace| - 1], trace[|trace| - 1];
      assert trace == front + [a];
      OnlyAttachedCalls(front, pin);
      AttachedIff(front, pin);
      ExpectedNext(front, a);
    }
  }

  // ---------- independence ----------

  /** The actions on one button. */
  function OnPin(trace: seq<Action>, pin: int): (t: seq<Action>) {
    if trace == [] then []
    else OnPin(trace[..|trace| - 1], pin) + if trace[|trace| - 1].pin == pin then [trace[|trace| - 1]] else []
  }

  function CallsOf(calls: seq<Call>, pin: int): (c: seq<Call>) {
    if calls == [] then []
    else CallsOf(calls[..|calls| - 1], pin) + if calls[|calls| - 1].pin == pin then [calls[|calls| - 1]] else []
  }

  /** Two histories that leave a button in the same state. */
  ghost predicate Same(s: seq<Action>, t: seq<Action>, pin: int) {
    && Pressed(s, pin) == Pressed(t, pin)
    && ShortAttached(s, pin) == ShortAttached(t, pin) && LongAttached(s, pin) == LongAttached(t, pin)
  }

  lemma SameNext(s: seq<Action>, t: seq<Action>, a: Action, pin: int)
    requires Same(s, t, pin)
    ensures Same(s + [a], t + [a], pin)
  {
    PressedNext(s, a, pin);
    PressedNext(t, a, pin);
    HandlersNext(s, a, pin);
    HandlersNext(t, a, pin);
  }

  lemma SameSkip(s: seq<Action>, t: seq<Action>, a: Action, pin: int)
    requires Same(s, t, pin) && (a.pin != pin || (a.Sample? && a.value != 0 && a.value != 1))
    ensures Same(s + [a], t, pin)
  {
    PressedNext(s, a, pin);
    HandlersNext(s, a, pin);
  }

  lemma SameCalls(s: seq<Action>, t: seq<Action>, a: Action)
    requires Same(s, t, a.pin)
    ensures CallsAt(s, a) == CallsAt(t, a)
  {
  }

  lemma OnPinNext(trace: seq<Action>, a: Action, pin: int)
    ensures OnPin(trace + [a], pin) == OnPin(trace, pin) + if a.pin == pin then [a] else []
  {
    assert (trace + [a])[..|trace|] == trace;
  }

  lemma CallsAreOwn(trace: seq<Action>, a: Action)
    ensures |CallsAt(trace, a)| <= 1 && forall c | c in CallsAt(trace, a) :: c.pin == a.pin
  {
  }

  lemma CallsOfNext(calls: seq<Call>, more: seq<Call>, at: int, pin: int)
    requires |more| <= 1 && forall c | c in more :: c.pin == at
    ensures CallsOf(calls + more, pin) == CallsOf(calls, pin) + if at == pin then more else []
  {
    if more == [] {
      assert calls + more == calls;
    } else {
      assert (calls + more)[..|calls|] == calls;
      assert more == [more[0]];
    }
  }

  lemma Nothing(pin: int)
    ensures OnPin([], pin) == [] && Expected([]) == [] && CallsOf([], pin) == [] && Same([], [], pin)
  {
  }

  /** What a button calls depends on the actions on that button only. */
  lemma {:induction false} Independent(trace: seq<Action>, pin: int)
    ensures CallsOf(Expected(trace), pin) == Expected(OnPin(trace, pin)) && Same(trace, OnPin(trace, pin), pin)
  {
    hide *;
    Nothing(pin);
    if trace != [] {
      var front, a := trace[..|trace| - 1], trace[|trace| - 1];
      Independent(front, pin);
      assert trace == front + [a];
      OneMore(front, a, pin);
    }
  }

  lemma OneMore(front: seq<Action>, a: Action, pin: int)
    requires CallsOf(Expected(front), pin) == Expected(OnPin(front, pin)) && Same(front, OnPin(front, pin), pin)
    ensures CallsOf(Expected(front + [a]), pin) == Expected(OnPin(front + [a], pin))
    ensures Same(front + [a], OnPin(front + [a], pin), pin)
  {
    hide *;
    var own := OnPin(front, pin);
    OnPinNext(front, a, pin);
    ExpectedNext(front, a);
    CallsAreOwn(front, a);
    CallsOfNext(Expected(front), CallsAt(front, a), a.pin, pin);
    if a.pin == pin {
      ExpectedNext(own, a);
      SameCalls(front, own, a);
      SameNext(front, own, a, pin);
    } else {
      assert own + [] == own && Expected(own) + [] == Expected(own);
      SameSkip(front, own, a, pin);
    }
  }

  /** A sample that is neither 0 nor 1 changes nothing, wherever it stands. */
  lemma {:induction false} OddSamplesIgnored(before: seq<Action>, pin: int, value: int, after: seq<Action>)
    requires value != 0 && value != 1
    ensures Expected(before + [Sample(pin, value)] + after) == Expected(before + after)
    ensures forall p :: Same(before + [Sample(pin, value)] + after, before + after, p)
  {
    hide *;
    var odd := Sample(pin, value);
    if after == [] {
      assert before + [odd] + after == before + [odd] && before + after == before;
      OddLast(before, pin, value);
    } else {
      var front, a := after[..|after| - 1], after[|after| - 1];
      var with, without := before + [odd] + front, before + front;
      OddSamplesIgnored(before, pin, value, front);
      assert before + [odd] + after == with + [a] && before + after == without + [a];
      ExpectedNext(with, a);
      ExpectedNext(without, a);
      SameCalls(with, without, a);
      forall p
        ensures Same(with + [a], without + [a], p)
      {
        SameNext(with, without, a, p);
      }
    }
  }

  lemma OddLast(before: seq<Action>, pin: int, value: int)
    requires value != 0 && value != 1
    ensures Expected(before + [Sample(pin, value)]) == Expected(before)
    ensures forall p :: Same(before + [Sample(pin, value)], before, p)
  {
    ExpectedNext(before, Sample(pin, value));
    forall p
      ensures Same(before + [Sample(pin, value)], before, p)
    {
      SameSkip(before, before, Sample(pin, value), p);
    }
  }

  // ---------- the module ----------

  datatype ButtonState = KPressed | KReleased | None

  datatype Descriptor = Descriptor(pinId: int, pressCount: int, buttonState: ButtonState,
                                   shortClickHandler: bool, longClickHandler: bool)

  /** A descriptor agrees with what has happened. */
  ghost predicate Agrees(d: Descriptor, trace: seq<Action>) {
    && d.pressCount == Pressed(trace, d.pinId)
    && (d.buttonState == KPressed <==> d.pressCount > 0)
    && d.shortClickHandler == ShortAttached(trace, d.pinId)
    && d.longClickHandler == LongAttached(trace, d.pinId)
  }

  lemma AgreesNext(d: Descriptor, trace: seq<Action>, a: Action)
    requires Agrees(d, trace) && d.pinId != a.pin
    ensures Agrees(d, trace + [a])
  {
    PressedNext(trace, a, d.pinId);
    HandlersNext(trace, a, d.pinId);
  }

  lemma AgreesSampled(d: Descriptor, trace: seq<Action>, value: int)
    requires Agrees(d, trace)
    ensures var next := if value == 0 then d.(pressCount := d.pressCount + 1, buttonState := KPressed)
                        else if value == 1 then d.(pressCount := 0, buttonState := KReleased) else d;
      Agrees(next, trace + [Sample(d.pinId, value)])
  {
    PressedNext(trace, Sample(d.pinId, value), d.pinId);
    HandlersNext(trace, Sample(d.pinId, value), d.pinId);
  }

  lemma AgreesSet(d: Descriptor, trace: seq<Action>, attached: bool)
    requires Agrees(d, trace)
    ensures Agrees(d.(shortClickHandler := attached), trace + [SetShort(d.pinId, attached)])
    ensures Agrees(d.(longClickHandler := attached), trace + [SetLong(d.pinId, attached)])
  {
    PressedNext(trace, SetShort(d.pinId, attached), d.pinId);
    HandlersNext(trace, SetShort(d.pinId, attached), d.pinId);
    PressedNext(trace, SetLong(d.pinId, attached), d.pinId);
    HandlersNext(trace, SetLong(d.pinId, attached), d.pinId);
  }

  class ButtonsModule {
    const buttons: array<Descriptor>
    var calls: seq<Call>
    ghost var trace: seq<Action>

    ghost predicate Pins()
      reads this, buttons
    {
      && buttons.Length == BUTTONS_COUNT
      && buttons[0].pinId == COUNTER_UP_PIN && buttons[1].pinId == COUNTER_DOWN_PIN
      && buttons[2].pinId == CONTROL_BUTTON_PIN
    }

    /** The calls made are those that the actions so far ask for, and every descriptor agrees with the actions. */
    ghost predicate Valid()
      reads this, buttons
    {
      && Pins() && calls == Expected(trace)
      && forall i | 0 <= i < BUTTONS_COUNT :: Agrees(buttons[i], trace)
    }

    constructor ()
      ensures Valid() && trace == [] && calls == [] && fresh(buttons)
    {
      buttons := new Descriptor[BUTTONS_COUNT](_ => Descriptor(0, 0, None, false, false));
      calls, trace := [], [];
      new;
      buttons[0] := Descriptor(COUNTER_UP_PIN, 0, None, false, false);
      buttons[1] := Descriptor(COUNTER_DOWN_PIN, 0, None, false, false);
      buttons[2] := Descriptor(CONTROL_BUTTON_PIN, 0, None, false, false);
    }

    method FindById(buttonId: int) returns (index: int)
      requires Pins()
      ensures if buttonId == 21 || buttonId == 20 || buttonId == 16 then
                0 <= index < BUTTONS_COUNT && buttons[index].pinId == buttonId
              else index == -1
    {
      for i := 0 to BUTTONS_COUNT
        invariant forall k | 0 <= k < i :: buttons[k].pinId != buttonId
      {
        if buttons[i].pinId == buttonId {
          return i;
        }
      }
      return -1;
    }

    method ProcessPinEvent(pinEvent: int, pinNumber: int)
      requires Valid()
      modifies this, buttons
      ensures Valid() && trace == old(trace) + [Sample(pinNumber, pinEvent)] && calls == Expected(trace)
    {
      hide Agrees, Pressed, Expected, ShortAttached, LongAttached;
      ghost var a := Sample(pinNumber, pinEvent);
      ghost var before, n := trace, Expected(trace);
      ExpectedNext(before, a);
      for i := 0 to BUTTONS_COUNT
        invariant Pins() && trace == before
        invariant calls == n + if exists k :: 0 <= k < i && buttons[k].pinId == pinNumber then CallsAt(before, a)
                               else []
        invariant forall k | 0 <= k < i :: Agrees(buttons[k], before + [a])
        invariant forall k | i <= k < BUTTONS_COUNT :: Agrees(buttons[k], before)
      {
        ghost var d := buttons[i];
        if buttons[i].pinId == pinNumber {
          CountIs(d, before);
          AgreesSampled(d, before, pinEvent);
          if pinEvent == 0 {
            buttons[i] := buttons[i].(pressCount := buttons[i].pressCount + 1);
            buttons[i] := buttons[i].(buttonState := KPressed);
          } else if pinEvent == 1 {
            if buttons[i].buttonState == KPressed {
              var counterPress := buttons[i].pressCount;
              if counterPress > 0 && counterPress < SHORT_CLICK_THRESHOLD {
                if buttons[i].shortClickHandler {
                  calls := calls + [ShortClick(pinNumber)];
                }
              } else if counterPress > LONG_CLICK_THRESHOLD {
                if buttons[i].longClickHandler {
                  calls := calls + [LongClick(pinNumber)];
                }
              }
            }
            buttons[i] := buttons[i].(buttonState := KReleased);
            buttons[i] := buttons[i].(pressCount := 0);
          }
        } else {
          AgreesNext(d, before, a);
        }
      }
      trace := trace + [a];
    }

    /** One round over the pins, whose levels are read just before. */
    method ProcessButtonsModule(up: int, down: int, control: int)
      requires Valid()
      modifies this, buttons
      ensures Valid() && trace == old(trace) + [Sample(21, up), Sample(20, down), Sample(16, control)]
      ensures calls == Expected(trace)
    {
      hide Expected, Agrees;
      ProcessPinEvent(up, COUNTER_UP_PIN);
      ProcessPinEvent(down, COUNTER_DOWN_PIN);
      ProcessPinEvent(control, CONTROL_BUTTON_PIN);
    }

    method AttachShortClickListener(pin: int, listener: bool)
      requires Valid() && Known(pin)
      modifies this, buttons
      ensures Valid() && trace == old(trace) + [SetShort(pin, listener)] && calls == Expected(trace)
    {
      hide Agrees, Pressed, Expected, ShortAttached, LongAttached;
      var k := FindById(pin);
      ghost var before, a := trace, SetShort(pin, listener);
      ExpectedNext(before, a);
      AgreesSet(buttons[k], before, listener);
      forall i | 0 <= i < BUTTONS_COUNT && i != k
        ensures Agrees(buttons[i], before + [a])
      {
        AgreesNext(buttons[i], before, a);
      }
      buttons[k] := buttons[k].(shortClickHandler := listener);
      trace := trace + [a];
    }

    /** Only the control button has long clicks. */
    method AttachLongClickListener(listener: bool)
      requires Valid()
      modifies this, buttons
      ensures Valid() && trace == old(trace) + [SetLong(16, listener)] && calls == Expected(trace)
    {
      hide Agrees, Pressed, Expected, ShortAttached, LongAttached;
      var k := FindById(CONTROL_BUTTON_PIN);
      ghost var before, a := trace, SetLong(CONTROL_BUTTON_PIN, listener);
      ExpectedNext(before, a);
      AgreesSet(buttons[k], before, listener);
      forall i | 0 <= i < BUTTONS_COUNT && i != k
        ensures Agrees(buttons[i], before + [a])
      {
        AgreesNext(buttons[i], before, a);
      }
      buttons[k] := buttons[k].(longClickHandler := listener);
      trace := trace + [a];
    }
  }

  lemma CountIs(d: Descriptor, trace: seq<Action>)
    requires Agrees(d, trace)
    ensures d.pressCount == Pressed(trace, d.pinId) && (d.buttonState == KPressed <==> d.pressCount > 0)
    ensures d.shortClickHandler == ShortAttached(trace, d.pinId) && d.longClickHandler == LongAttached(trace, d.pinId)
  {
  }
}
