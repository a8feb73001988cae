/**
  The onboarding pager: three slides, a "next" button that advances one
  slide at a time and leaves for the login screen from the last one, and a
  row of indicators marking the current slide.
 */
module Onboarding {
  import opened Common

  const SlideCount: nat := 3

  /** `handleNext`: the next slide, or the login screen from the last one. */
  function Next(current: nat): (r: (nat, Option<Route>))
    ensures current < SlideCount - 1 ==> r == (current + 1, None)
    ensures current >= SlideCount - 1 ==> r == (current, Some(LoginRoute))
  {
    if current < SlideCount - 1 then (current + 1, None) else (current, Some(LoginRoute))
  }

  function Max(a: int, b: int): int {
    if a < b then b else a
  }

  /** The indicator row: `true` marks the active dot. */
  function Indicators(current: nat): (dots: seq<bool>)
    ensures |dots| == SlideCount
    ensures current < SlideCount ==> forall i :: 0 <= i < SlideCount ==> (dots[i] <==> i == current)
  {
    seq(SlideCount, i requires 0 <= i < SlideCount => i == current)
  }

  /** Pressing "next" `presses` times from slide `current`: the slide reached
      and the first navigation requested, if any. */
  function Press(current: nat, presses: nat): (r: (nat, Option<Route>))
    ensures current < SlideCount ==> current <= r.0 < SlideCount
    ensures r.1.Some? ==> r.1 == Some(LoginRoute) && r.0 == Max(current, SlideCount - 1)
    ensures current < SlideCount ==>
      r == if presses < SlideCount - current then (current + presses, None) else (SlideCount - 1, Some(LoginRoute))
    decreases presses
  {
    if presses == 0 then (current, None)
    else
      var (c, nav) := Next(current);
      if nav.Some? then (c, nav) else Press(c, presses - 1)
  }

  /** From any slide on the pager, "next" keeps the index on a slide. */
  lemma NextStaysInRange(current: nat)
    requires current < SlideCount
    ensures Next(current).0 < SlideCount
  {
  }

  /** From the first slide, the pager navigates on the third press and not before;
      exactly one indicator is lit all the while. */
  lemma ThirdPressNavigates()
    ensures Press(0, 1) == (1, None) && Press(0, 2) == (2, None)
    ensures Press(0, 3) == (2, Some(LoginRoute))
    ensures forall n :: 0 <= n <= 2 ==> |set i | 0 <= i < SlideCount && Indicators(n)[i]| == 1
  {
    forall n | 0 <= n <= 2 ensures |set i | 0 <= i < SlideCount && Indicators(n)[i]| == 1 {
      assert (set i | 0 <= i < SlideCount && Indicators(n)[i]) == {n};
    }
  }
}
