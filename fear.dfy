/** The fear controller of `Global`: a value kept inside `[0, MaxFear]`, a
    one-way latch that asks once for the loss screen, and a single
    fear-bar slot that is told every new value. Engine effects are returned
    as values: the bar push and the requested scene. */
module Fear {
  import opened Wrappers

  /** The scene `SetFear` asks for when fear saturates. */
  const LossScene: string := "res://scenes/loose_screen.tscn"

  /** Fear at start-up and its ceiling. */
  const InitialFear: real := 40.0
  const MaxFear: real := 100.0

  /** Identity of a registered fear bar widget. */
  type BarId = nat

  /** A call of `FearBarUI.UpdateValue(current, max)` on a bar. */
  datatype BarUpdate = BarUpdate(bar: BarId, current: real, max: real)

  datatype FearState = FearState(current: real, max: real, lostTriggered: bool, bar: Option<BarId>)
  {
    /** The value lies in `[0, max]`, and a saturated value has fired the latch. */
    predicate Valid() {
      0.0 <= current <= max && (current >= max ==> lostTriggered)
    }
  }

  /** The controller as `Global` starts it: 40 out of 100, no bar, latch open. */
  function Initial(): (s: FearState)
    ensures s.Valid() && !s.lostTriggered && s.bar.None?
  {
    FearState(InitialFear, MaxFear, false, None)
  }

  /** The result of one call: the new state, the push to the bar (if one is
      registered) and the scene change asked for (if any). */
  datatype FearStep = FearStep(next: FearState, push: Option<BarUpdate>, scene: Option<string>)

  /** `Mathf.Clamp(value, min, max)`. */
  function Clamp(v: real, lo: real, hi: real): (r: real)
    ensures lo <= hi ==> lo <= r <= hi
    ensures lo <= hi ==> (r == v <==> lo <= v <= hi)
    ensures r == v || r == lo || r == hi
    ensures lo <= hi && v < lo ==> r == lo
    ensures lo <= hi && v > hi ==> r == hi
  {
    if v < lo then lo else if v > hi then hi else v
  }

  /** `UpdateFearBar`: tells the registered bar, if any, the state's values. */
  function Push(s: FearState): (r: Option<BarUpdate>)
    ensures r.Some? <==> s.bar.Some?
    ensures r.Some? ==> r.value.bar == s.bar.value && r.value.current == s.current && r.value.max == s.max
  {
    match s.bar
    case None => None
    case Some(b) => Some(BarUpdate(b, s.current, s.max))
  }

  /** `Global.SetFear(fear)`. */
  function SetFear(s: FearState, fear: real): (r: FearStep)
    requires 0.0 <= s.max
    ensures r.next.Valid()
    ensures r.next.max == s.max && r.next.bar == s.bar
    ensures 0.0 <= fear <= s.max ==> r.next.current == fear
    ensures fear < 0.0 ==> r.next.current == 0.0
    ensures fear > s.max ==> r.next.current == s.max
    ensures r.push == Push(r.next)
    ensures r.next.lostTriggered <==> s.lostTriggered || r.next.current >= s.max
    ensures r.scene.Some? <==> !s.lostTriggered && r.next.lostTriggered
    ensures r.scene.Some? ==> r.scene.value == LossScene
  {
    var current := Clamp(fear, 0.0, s.max);
    var fire := !s.lostTriggered && current >= s.max;
    var next := s.(current := current, lostTriggered := s.lostTriggered || fire);
    FearStep(next, Push(next), if fire then Some(LossScene) else None)
  }

  /** `Global.AddFear(amount)`: `SetFear(CurrentFear + amount)`. */
  function AddFear(s: FearState, amount: real): (r: FearStep)
    requires 0.0 <= s.max
    ensures r.next.Valid() && r.next.current == Clamp(s.current + amount, 0.0, s.max)
    ensures s.Valid() && amount <= 0.0 ==> r.scene.None?
  {
    SetFear(s, s.current + amount)
  }

  /** `Global.RegisterFearBarUI(bar)`: the slot takes the new bar (or none)
      and is told the current values at once. */
  function RegisterBar(s: FearState, bar: Option<BarId>): (r: FearStep)
    ensures r.next == s.(bar := bar)
    ensures r.push == (if bar.Some? then Some(BarUpdate(bar.value, s.current, s.max)) else None)
    ensures r.scene.None?
  {
    var next := s.(bar := bar);
    FearStep(next, Push(next), None)
  }

  /** Adding a non-positive amount never raises fear, adding a non-negative
      one never lowers it. */
  lemma AddFearMonotone(s: FearState, amount: real)
    requires s.Valid()
    ensures amount <= 0.0 ==> AddFear(s, amount).next.current <= s.current
    ensures amount >= 0.0 ==> AddFear(s, amount).next.current >= s.current
  {
  }

  /** Only the last registration is told later values: one slot, not a list. */
  lemma LastRegistrationWins(s: FearState, first: Option<BarId>, second: Option<BarId>, fear: real)
    requires 0.0 <= s.max
    ensures RegisterBar(RegisterBar(s, first).next, second).next == RegisterBar(s, second).next
    ensures SetFear(RegisterBar(RegisterBar(s, first).next, second).next, fear).push
            == (if second.Some? then Some(BarUpdate(second.value, Clamp(fear, 0.0, s.max), s.max)) else None)
  {
  }

  /** A call made on the controller. */
  datatype FearCall = SetTo(fear: real) | Add(amount: real) | Register(bar: Option<BarId>)

  function Apply(s: FearState, call: FearCall): (r: FearStep)
    requires 0.0 <= s.max
    ensures r.next.max == s.max
  {
    match call
    case SetTo(v) => SetFear(s, v)
    case Add(a) => AddFear(s, a)
    case Register(b) => RegisterBar(s, b)
  }

  /** The state after a series of calls and how many of them asked for the
      loss screen. */
  function Run(s: FearState, calls: seq<FearCall>): (r: (FearState, nat))
    requires 0.0 <= s.max
    ensures r.0.max == s.max
    decreases |calls|
  {
    if calls == [] then (s, 0)
    else
      var step := Apply(s, calls[0]);
      var rest := Run(step.next, calls[1..]);
      (rest.0, rest.1 + (if step.scene.Some? then 1 else 0))
  }

  /** The loss screen is asked for at most once, never once the latch is set,
      the latch stays set, and the value stays within bounds throughout. */
  lemma {:induction false} LossScreenAtMostOnce(s: FearState, calls: seq<FearCall>)
    requires s.Valid()
    ensures Run(s, calls).0.Valid()
    ensures Run(s, calls).1 <= 1
    ensures s.lostTriggered ==> Run(s, calls).1 == 0
    ensures Run(s, calls).0.lostTriggered <==> s.lostTriggered || Run(s, calls).1 == 1
    decreases |calls|
  {
    if calls != [] {
      var step := Apply(s, calls[0]);
      assert step.next.Valid();
      assert s.lostTriggered ==> step.next.lostTriggered && step.scene.None?;
      LossScreenAtMostOnce(step.next, calls[1..]);
    }
  }

  /** Saturating fear on a fresh controller asks for the loss screen, and a
      second saturation does not ask again. */
  lemma SaturatingTwice(fear1: real, fear2: real)
    requires fear1 >= MaxFear && fear2 >= MaxFear
    ensures SetFear(Initial(), fear1).scene == Some(LossScene)
    ensures SetFear(SetFear(Initial(), fear1).next, fear2).scene.None?
  {
  }
}
