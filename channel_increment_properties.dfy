/** Properties of the keyboard stepping in src/Avalonia.ColorPicker/ColorHelpers.cs. */
module ChannelIncrementProperties {
  import opened ColorSpace
  import opened ChannelIncrement

  // ---------------------------------------------------------------------------
  // The step grid
  // ---------------------------------------------------------------------------

  /** A value on the step grid has no remainder. */
  lemma {:induction false} GridValueHasNoRemainder(k: nat, step: real)
    requires step == 1.0 || step == 0.01
    ensures StepRemainder(k as real * step, step) == 0.0
    decreases k
  {
    if k > 0 {
      assert k as real * step - step == (k - 1) as real * step;
      GridValueHasNoRemainder(k - 1, step);
    }
  }

  /** As written, a positive value on the step grid keeps a whole step as its
      remainder, so snapping moves it down by one step. */
  lemma {:induction false} AsWrittenGridValueLosesAStep(k: nat, step: real)
    requires step == 1.0 || step == 0.01
    requires k >= 1
    ensures StepRemainderAsWritten(k as real * step, step) == step
    decreases k
  {
    if k > 1 {
      assert k as real * step - step == (k - 1) as real * step;
      AsWrittenGridValueLosesAStep(k - 1, step);
    }
  }

  /** Removing the remainder never goes below a grid point at or below `x`. */
  lemma {:induction false} SnapKeepsGridFloor(x: real, step: real, k: nat)
    requires step == 1.0 || step == 0.01
    requires k as real * step <= x
    ensures x - StepRemainder(x, step) >= k as real * step
    decreases (x * 100.0).Floor
  {
    WholeStepsAtLeastOne(k, step);
    if x >= step && k >= 1 {
      assert (k - 1) as real * step == k as real * step - step;
      SnapKeepsGridFloor(x - step, step, k - 1);
    }
  }

  lemma WholeStepsAtLeastOne(k: nat, step: real)
    requires step == 1.0 || step == 0.01
    ensures k >= 1 ==> k as real * step >= step
  {
    if step == 0.01 {
      assert k as real * step == k as real / 100.0;
    }
  }

  // ---------------------------------------------------------------------------
  // Large steps without wrapping stay within the bounds
  // ---------------------------------------------------------------------------

  /** Without wrapping, the first phase ends within the bounds. */
  lemma {:induction false} DepartStaysInBounds(s: Search, v: real, fuel: nat)
    requires IsHsvChannel(s.channel) && !s.wrap && s.min <= s.max
    ensures var d := Depart(s, v, fuel);
      d.Some? ==> s.min <= d.value.at <= s.max
    decreases fuel
  {
    if fuel > 0 {
      var next := v + Signed(s.direction, StepOf(s.channel));
      if s.min <= next <= s.max {
        var name := s.name(With(s.origin, s.channel, next));
        if name == s.name(s.origin) {
          DepartStaysInBounds(s, next, fuel - 1);
        }
      }
    }
  }

  /** Without wrapping, the second phase ends within the bounds and adds no offset. */
  lemma {:induction false} CrossStaysInBounds(s: Search, name: string, c: real, fuel: nat)
    requires IsHsvChannel(s.channel) && !s.wrap && s.min <= s.max
    ensures var x := Cross(s, name, c, 0.0, fuel);
      x.Some? ==> s.min <= x.value.end <= s.max && x.value.offset == 0.0
    decreases fuel
  {
    if fuel > 0 {
      var next := c + Signed(s.direction, StepOf(s.channel));
      if s.min <= next <= s.max && s.name(With(s.origin, s.channel, next)) == name {
        CrossStaysInBounds(s, name, next, fuel - 1);
      }
    }
  }

  /** A large step that may not wrap lands within its bounds, when the lower
      bound is a non-negative whole number of steps. */
  lemma LargeStepStaysInBounds(s: Search, fuel: nat, k: nat)
    requires IsHsvChannel(s.channel) && !s.wrap && s.min <= s.max
    requires s.min == k as real * StepOf(s.channel)
    ensures var r := NextNamedColor(s, fuel);
      r.Some? ==> s.min <= Get(r.value, s.channel) <= s.max
  {
    DepartStaysInBounds(s, Get(s.origin, s.channel), fuel);
    match Depart(s, Get(s.origin, s.channel), fuel)
    case None =>
    case Some(Stopped(v)) =>
    case Some(Renamed(v, name)) =>
      CrossStaysInBounds(s, name, v, fuel);
      match Cross(s, name, v, 0.0, fuel)
      case None =>
      case Some(Crossing(end, offset)) =>
        var middle := (v + end + offset) / 2.0;
        assert s.min <= middle <= s.max;
        SnapKeepsGridFloor(middle, StepOf(s.channel), k);
  }

  /** Without wrapping, a first phase that moves away from the start and
      stops without finding a new name stops exactly on the bound it hit:
      moving in one direction never crosses back over the start. */
  lemma {:induction false} DepartStopsOnBound(s: Search, v: real, fuel: nat)
    requires IsHsvChannel(s.channel) && !s.wrap
    requires s.direction == Lower ==> v <= Get(s.origin, s.channel)
    requires s.direction == Higher ==> v >= Get(s.origin, s.channel)
    ensures Depart(s, v, fuel).Some? && Depart(s, v, fuel).value.Stopped? ==>
      Depart(s, v, fuel).value.at == s.min || Depart(s, v, fuel).value.at == s.max
    decreases fuel
  {
    if fuel > 0 {
      var next := v + Signed(s.direction, StepOf(s.channel));
      if s.min <= next <= s.max {
        var original := Get(s.origin, s.channel);
        assert v != original ==> Sign(next - original) == Sign(v - original);
        if s.name(With(s.origin, s.channel, next)) == s.name(s.origin) {
          DepartStopsOnBound(s, next, fuel - 1);
        }
      }
    }
  }

  /** Without wrapping, a large step whose first phase hits a bound before
      any new name returns the colour with the channel set to that bound,
      with no midpoint step. */
  lemma LargeStepStopsOnBound(s: Search, fuel: nat, b: real)
    requires IsHsvChannel(s.channel) && !s.wrap
    requires Depart(s, Get(s.origin, s.channel), fuel) == Some(Stopped(b))
    ensures b == s.min || b == s.max
    ensures NextNamedColor(s, fuel) == Some(With(s.origin, s.channel, b))
  {
    DepartStopsOnBound(s, Get(s.origin, s.channel), fuel);
  }

  /** As written, a large step down from hue 11 with a lower bound of 10 lands
      on hue 9, outside the bounds, whenever hue 10 is named differently from
      hue 11: the search finds the new name at 10, crosses it at once by
      hitting the bound, and snapping the midpoint 10 removes a whole step. */
  lemma AsWrittenLargeStepLeavesBounds(s: Search, fuel: nat)
    requires s.channel == Hue && s.direction == Lower && !s.wrap
    requires s.min == 10.0 && s.max == 359.0 && s.origin.h == 11.0 && fuel >= 1
    requires s.name(With(s.origin, Hue, 10.0)) != s.name(s.origin)
    ensures Depart(s, 11.0, fuel) == Some(Renamed(10.0, s.name(With(s.origin, Hue, 10.0))))
    ensures Cross(s, s.name(With(s.origin, Hue, 10.0)), 10.0, 0.0, fuel) == Some(Crossing(10.0, 0.0))
    ensures MidpointAsWritten(s, 10.0, 10.0, 0.0) == 9.0
    ensures Midpoint(s, 10.0, 10.0, 0.0) == 10.0
  {
    AsWrittenGridValueLosesAStep(10, 1.0);
    GridValueHasNoRemainder(10, 1.0);
    assert RaiseTo(9.0, 10.0, 360.0) == 369.0;
    assert LowerTo(369.0, 359.0, 360.0) == 9.0;
  }

  // ---------------------------------------------------------------------------
  // A search that never ends
  // ---------------------------------------------------------------------------

  /** With wrapping and both bounds equal to the starting value, the first
      phase steps off the range, wraps back onto the start and sees the same
      name again, forever: no step budget is enough. */
  lemma {:induction false} PinnedSearchNeverEnds(s: Search, fuel: nat)
    requires IsHsvChannel(s.channel) && s.wrap
    requires s.min == s.max == Get(s.origin, s.channel)
    ensures Depart(s, s.min, fuel) == None
    ensures NextNamedColor(s, fuel) == None
    decreases fuel
  {
    if fuel > 0 {
      assert With(s.origin, s.channel, s.min) == s.origin;
      PinnedSearchNeverEnds(s, fuel - 1);
    }
  }

  // ---------------------------------------------------------------------------
  // Small steps
  // ---------------------------------------------------------------------------

  /** A small step wraps to the opposite bound only from the bound it crosses,
      and otherwise stops on that bound. */
  lemma SmallStepWrapsOnlyFromBound(hsv: Hsv, ch: Channel, dir: Direction, wrap: bool, min: real, max: real)
    requires IsHsvChannel(ch) && min < max
    requires Scaled(hsv, ch) + Signed(dir, 1.0) > max
    ensures var r := SmallIncrement(hsv, ch, dir, wrap, min, max);
      Scaled(r, ch) == (if wrap && Scaled(hsv, ch) == max then min else max)
  {
  }
}
