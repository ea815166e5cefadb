/** Keyboard stepping of one HSV channel or of alpha
    (src/Avalonia.ColorPicker/ColorHelpers.cs, `IncrementColorChannel`,
    `FindNextNamedColor` and `IncrementAlphaChannel`).

    A small step moves the channel by one unit (one degree of hue, one percent
    of saturation or value). A large step walks, one unit at a time, to the
    next colour whose display name differs and then lands in the middle of
    that name's range. The display name (`Color.ToString()`) is a parameter. */
module ChannelIncrement {
  import opened ColorSpace

  datatype Channel = Hue | Saturation | Value | Alpha
  datatype Direction = Lower | Higher
  datatype Amount = Small | Large

  /** Why an increment produced no colour: the alpha channel has no HSV
      counterpart, or a named-colour search ran out of its step budget. */
  datatype IncrementError = NotSupported | SearchUnfinished

  datatype Result<T> = Success(value: T) | Failure(error: IncrementError)

  /** The display name of a colour. */
  type Namer = Color -> string

  /** Names HSV triples by the display name of the 8-bit colour each quantises
      to, as `ToDisplayName(ColorFromRgba(HsvToRgb(hsv)))` does. */
  function HsvNamer(name: Namer): Hsv -> string {
    hsv => name(ColorFromRgba(HsvToRgb(hsv)))
  }

  predicate IsHsvChannel(ch: Channel) { ch != Alpha }

  function Get(hsv: Hsv, ch: Channel): real
    requires IsHsvChannel(ch)
  {
    match ch
    case Hue => hsv.h
    case Saturation => hsv.s
    case Value => hsv.v
  }

  /** `hsv` with one channel replaced. */
  function With(hsv: Hsv, ch: Channel, x: real): (r: Hsv)
    requires IsHsvChannel(ch)
    ensures Get(r, ch) == x
    ensures SameExcept(r, hsv, ch)
  {
    match ch
    case Hue => hsv.(h := x)
    case Saturation => hsv.(s := x)
    case Value => hsv.(v := x)
  }

  /** The two triples agree on every channel other than `ch`. */
  predicate SameExcept(a: Hsv, b: Hsv, ch: Channel) {
    (ch != Hue ==> a.h == b.h) && (ch != Saturation ==> a.s == b.s) && (ch != Value ==> a.v == b.v)
  }

  function Signed(dir: Direction, amount: real): real {
    if dir == Lower then -amount else amount
  }

  /** `Math.Sign`. */
  function Sign(x: real): int {
    if x < 0.0 then -1 else if x > 0.0 then 1 else 0
  }

  function Abs(x: real): real {
    if x < 0.0 then -x else x
  }

  // ---------------------------------------------------------------------------
  // Small increments
  // ---------------------------------------------------------------------------

  /** The two bound checks after a small step: a value that leaves the range
      lands on the bound it crossed, or, when wrapping, on the opposite bound
      if it was already sitting on the crossed one. */
  function BoundSmallStep(previous: real, next: real, wrap: bool, min: real, max: real): (r: real)
    ensures min <= max ==> min <= r <= max
    ensures min <= next <= max ==> r == next
    ensures min <= max && next < min ==> r == (if wrap && previous == min then max else min)
    ensures min <= max && next > max ==> r == (if wrap && previous == max then min else max)
  {
    var low := if next < min then (if wrap && previous == min then max else min) else next;
    if low > max then (if wrap && previous == max then min else max) else low
  }

  /** The channel in the units the small step works in: degrees for hue,
      percent for saturation and value. */
  function Scaled(hsv: Hsv, ch: Channel): real
    requires IsHsvChannel(ch)
  {
    if ch == Hue then hsv.h else 100.0 * Get(hsv, ch)
  }

  /** A small step of one HSV channel; the bounds are in degrees or percent. */
  function SmallIncrement(hsv: Hsv, ch: Channel, dir: Direction, wrap: bool, min: real, max: real): (r: Hsv)
    requires IsHsvChannel(ch)
    ensures SameExcept(r, hsv, ch)
    ensures min <= max ==> min <= Scaled(r, ch) <= max
    ensures min <= Scaled(hsv, ch) + Signed(dir, 1.0) <= max ==> Scaled(r, ch) == Scaled(hsv, ch) + Signed(dir, 1.0)
  {
    var previous := Scaled(hsv, ch);
    var stepped := BoundSmallStep(previous, previous + Signed(dir, 1.0), wrap, min, max);
    With(hsv, ch, if ch == Hue then stepped else stepped / 100.0)
  }

  // ---------------------------------------------------------------------------
  // Large increments: the named-colour search
  // ---------------------------------------------------------------------------

  /** One named-colour search: how it names colours, the colour it starts
      from, the channel it moves, which way, whether it wraps at the bounds, and
      the bounds (in HSV units). */
  datatype Search = Search(name: Hsv -> string, origin: Hsv, channel: Channel, direction: Direction,
                           wrap: bool, min: real, max: real)

  /** One degree of hue, or one percent of saturation or value. */
  function StepOf(ch: Channel): (step: real)
    ensures step == 1.0 || step == 0.01
  {
    if ch == Hue then 1.0 else 0.01
  }

  /** A whole turn of hue, or the whole [0, 1] range of saturation or value. */
  function WrapIncrementOf(ch: Channel): (inc: real)
    ensures inc >= 1.0
  {
    if ch == Hue then 360.0 else 1.0
  }

  /** Where the first phase of the search ends. */
  datatype Departure =
    | Stopped(at: real)               // at a bound it may not wrap over, or back across the start
    | Renamed(at: real, name: string) // at the first value whose name differs from the start's

  /** The first phase: step from `v` until the name changes. `None` when the
      step budget runs out first. */
  function Depart(s: Search, v: real, fuel: nat): (r: Option<Departure>)
    requires IsHsvChannel(s.channel)
    ensures r.Some? && r.value.Renamed? ==> r.value.name != s.name(s.origin)
    decreases fuel, 1
  {
    if fuel == 0 then None
    else
      var next := v + Signed(s.direction, StepOf(s.channel));
      if next > s.max then
        (if s.wrap then Land(s, v, s.min, true, fuel) else Some(Stopped(s.max)))
      else if next < s.min then
        (if s.wrap then Land(s, v, s.max, true, fuel) else Some(Stopped(s.min)))
      else
        Land(s, v, next, false, fuel)
  }

  /** The rest of a first-phase step that landed on `landed` from `previous`:
      stop when the walk has come back across the start, otherwise compare
      names. */
  function Land(s: Search, previous: real, landed: real, wrapped: bool, fuel: nat): (r: Option<Departure>)
    requires IsHsvChannel(s.channel) && fuel >= 1
    ensures r.Some? && r.value.Renamed? ==> r.value.name != s.name(s.origin)
    decreases fuel, 0
  {
    var original := Get(s.origin, s.channel);
    if !wrapped && previous != original && Sign(landed - original) != Sign(previous - original) then
      Some(Stopped(landed))
    else
      var name := s.name(With(s.origin, s.channel, landed));
      if name != s.name(s.origin) then Some(Renamed(landed, name))
      else Depart(s, landed, fuel - 1)
  }

  /** Where the second phase ends: the first value past the renamed range, and
      the offset that undoes a wrap between the two ends. */
  datatype Crossing = Crossing(end: real, offset: real)

  /** The second phase: step from `c` while the name stays `name`. */
  function Cross(s: Search, name: string, c: real, offset: real, fuel: nat): (r: Option<Crossing>)
    requires IsHsvChannel(s.channel)
    ensures r.Some? && !s.wrap ==> r.value.offset == offset
    decreases fuel, 1
  {
    if fuel == 0 then None
    else
      var next := c + Signed(s.direction, StepOf(s.channel));
      if next > s.max then
        (if s.wrap then Reach(s, name, s.min, s.max - s.min, fuel) else Some(Crossing(s.max, offset)))
      else if next < s.min then
        (if s.wrap then Reach(s, name, s.max, s.min - s.max, fuel) else Some(Crossing(s.min, offset)))
      else
        Reach(s, name, next, offset, fuel)
  }

  /** The rest of a second-phase step that landed on `landed`. */
  function Reach(s: Search, name: string, landed: real, offset: real, fuel: nat): (r: Option<Crossing>)
    requires IsHsvChannel(s.channel) && fuel >= 1
    ensures r.Some? && !s.wrap ==> r.value.offset == offset
    decreases fuel, 0
  {
    if s.name(With(s.origin, s.channel, landed)) != name then Some(Crossing(landed, offset))
    else Cross(s, name, landed, offset, fuel - 1)
  }

  /** The part of `x` above the last whole step at or below it. */
  function StepRemainder(x: real, step: real): (r: real)
    requires 0.0 <= x && (step == 1.0 || step == 0.01)
    ensures 0.0 <= r < step
    ensures r <= x
    decreases (x * 100.0).Floor
  {
    if x >= step then StepRemainder(x - step, step) else x
  }

  /** `StepRemainder` with the source's strict comparison
      (`while (leftoverValue > incrementAmount)`): a value on the grid keeps a
      whole step as its remainder. */
  function StepRemainderAsWritten(x: real, step: real): (r: real)
    requires 0.0 <= x && (step == 1.0 || step == 0.01)
    ensures 0.0 <= r <= step
    ensures r <= x
    decreases (x * 100.0).Floor
  {
    if x > step then StepRemainderAsWritten(x - step, step) else x
  }

  /** Raises `v` by whole wrap increments until it reaches `min`. */
  function RaiseTo(v: real, min: real, inc: real): (r: real)
    requires inc >= 1.0
    ensures r >= min
    ensures v >= min ==> r == v
    ensures v < min ==> r < min + inc
    decreases (min - v).Floor
  {
    if v < min then RaiseTo(v + inc, min, inc) else v
  }

  /** Lowers `v` by whole wrap increments until it is at most `max`. */
  function LowerTo(v: real, max: real, inc: real): (r: real)
    requires inc >= 1.0
    ensures r <= max
    ensures v <= max ==> r == v
    ensures v > max ==> r > max - inc
    decreases (v - max).Floor
  {
    if v > max then LowerTo(v - inc, max, inc) else v
  }

  /** The value half way between the two ends of the renamed range, moved down
      onto the step grid and wrapped back into the bounds. */
  function Midpoint(s: Search, start: real, end: real, offset: real): (r: real)
    requires IsHsvChannel(s.channel)
    ensures r <= s.max
    ensures var middle := (start + end + offset) / 2.0;
      s.min + StepOf(s.channel) <= middle <= s.max ==> middle - StepOf(s.channel) < r <= middle
  {
    var step := StepOf(s.channel);
    var inc := WrapIncrementOf(s.channel);
    var middle := (start + end + offset) / 2.0;
    var snapped := middle - StepRemainder(Abs(middle), step);
    LowerTo(RaiseTo(snapped, s.min, inc), s.max, inc)
  }

  /** `Midpoint` as the source computes it, with `StepRemainderAsWritten`. */
  function MidpointAsWritten(s: Search, start: real, end: real, offset: real): (r: real)
    requires IsHsvChannel(s.channel)
    ensures r <= s.max
    ensures var middle := (start + end + offset) / 2.0;
      s.min + StepOf(s.channel) <= middle <= s.max ==> middle - StepOf(s.channel) <= r <= middle
  {
    var step := StepOf(s.channel);
    var inc := WrapIncrementOf(s.channel);
    var middle := (start + end + offset) / 2.0;
    var snapped := middle - StepRemainderAsWritten(Abs(middle), step);
    LowerTo(RaiseTo(snapped, s.min, inc), s.max, inc)
  }

  /** The whole large step: `None` when either phase runs out of budget. */
  function NextNamedColor(s: Search, fuel: nat): (r: Option<Hsv>)
    requires IsHsvChannel(s.channel)
    ensures r.Some? ==> SameExcept(r.value, s.origin, s.channel)
  {
    match Depart(s, Get(s.origin, s.channel), fuel)
    case None => None
    case Some(Stopped(v)) => Some(With(s.origin, s.channel, v))
    case Some(Renamed(v, name)) =>
      match Cross(s, name, v, 0.0, fuel)
      case None => None
      case Some(Crossing(end, offset)) => Some(With(s.origin, s.channel, Midpoint(s, v, end, offset)))
  }

  /** The named-colour search: walk to a new name, walk across it, and land
      in its middle. Each walk may take at most `fuel` steps. */
  method FindNextNamedColor(s: Search, fuel: nat) returns (r: Option<Hsv>)
    requires IsHsvChannel(s.channel)
    ensures r == NextNamedColor(s, fuel)
  {
    var departure := WalkToNewName(s, fuel);
    match departure
    case None =>
      return None;
    case Some(Stopped(v)) =>
      return Some(With(s.origin, s.channel, v));
    case Some(Renamed(startValue, newColorName)) =>
      var crossing := WalkAcrossName(s, newColorName, startValue, fuel);
      match crossing
      case None =>
        return None;
      case Some(Crossing(currentValue, startEndOffset)) =>
        var newValue := SnapToMidpoint(s, startValue, currentValue, startEndOffset);
        return Some(With(s.origin, s.channel, newValue));
  }

  /** The first loop of the search. */
  method WalkToNewName(s: Search, fuel: nat) returns (d: Option<Departure>)
    requires IsHsvChannel(s.channel)
    ensures d == Depart(s, Get(s.origin, s.channel), fuel)
  {
    var ch := s.channel;
    var originalColorName := s.name(s.origin);
    var newColorName := originalColorName;
    var originalValue := Get(s.origin, ch);
    var newValue := originalValue;
    var increment := StepOf(ch);
    var budget := fuel;
    ghost var departure := Depart(s, originalValue, fuel);

    while newColorName == originalColorName
      invariant newColorName == originalColorName ==> Depart(s, newValue, budget) == departure
      invariant newColorName != originalColorName ==> departure == Some(Renamed(newValue, newColorName))
      decreases budget
    {
      if budget == 0 {
        return None;
      }
      var previousValue := newValue;
      newValue := newValue + Signed(s.direction, increment);
      var justWrapped := false;
      if newValue > s.max {
        if s.wrap {
          newValue := s.min;
          justWrapped := true;
        } else {
          return Some(Stopped(s.max));
        }
      } else if newValue < s.min {
        if s.wrap {
          newValue := s.max;
          justWrapped := true;
        } else {
          return Some(Stopped(s.min));
        }
      }
      if !justWrapped && previousValue != originalValue
        && Sign(newValue - originalValue) != Sign(previousValue - originalValue)
      {
        return Some(Stopped(newValue));
      }
      newColorName := s.name(With(s.origin, ch, newValue));
      budget := budget - 1;
    }
    return Some(Renamed(newValue, newColorName));
  }

  /** The second loop of the search, from the first value carrying `newColorName`. */
  method WalkAcrossName(s: Search, newColorName: string, startValue: real, fuel: nat) returns (c: Option<Crossing>)
    requires IsHsvChannel(s.channel)
    ensures c == Cross(s, newColorName, startValue, 0.0, fuel)
  {
    var ch := s.channel;
    var currentValue := startValue;
    var startEndOffset := 0.0;
    var currentColorName := newColorName;
    var increment := StepOf(ch);
    var budget := fuel;
    ghost var crossing := Cross(s, newColorName, startValue, 0.0, fuel);

    while newColorName == currentColorName
      invariant newColorName == currentColorName ==> Cross(s, newColorName, currentValue, startEndOffset, budget) == crossing
      invariant newColorName != currentColorName ==> crossing == Some(Crossing(currentValue, startEndOffset))
      decreases budget
    {
      if budget == 0 {
        return None;
      }
      currentValue := currentValue + Signed(s.direction, increment);
      if currentValue > s.max {
        if s.wrap {
          currentValue := s.min;
          startEndOffset := s.max - s.min;
        } else {
          return Some(Crossing(s.max, startEndOffset));
        }
      } else if currentValue < s.min {
        if s.wrap {
          currentValue := s.max;
          startEndOffset := s.min - s.max;
        } else {
          return Some(Crossing(s.min, startEndOffset));
        }
      }
      currentColorName := s.name(With(s.origin, ch, currentValue));
      budget := budget - 1;
    }
    return Some(Crossing(currentValue, startEndOffset));
  }

  /** The last three loops of the search: halve, snap onto the step grid, and
      wrap back into the bounds. */
  method SnapToMidpoint(s: Search, startValue: real, currentValue: real, startEndOffset: real) returns (newValue: real)
    requires IsHsvChannel(s.channel)
    ensures newValue == Midpoint(s, startValue, currentValue, startEndOffset)
  {
    var increment := StepOf(s.channel);
    var wrapIncrement := WrapIncrementOf(s.channel);
    newValue := (startValue + currentValue + startEndOffset) / 2.0;
    var leftoverValue := Abs(newValue);
    while leftoverValue >= increment
      invariant 0.0 <= leftoverValue
      invariant StepRemainder(leftoverValue, increment) == StepRemainder(Abs(newValue), increment)
      decreases (leftoverValue * 100.0).Floor
    {
      leftoverValue := leftoverValue - increment;
    }
    newValue := newValue - leftoverValue;
    ghost var snapped := newValue;
    while newValue < s.min
      invariant RaiseTo(newValue, s.min, wrapIncrement) == RaiseTo(snapped, s.min, wrapIncrement)
      decreases (s.min - newValue).Floor
    {
      newValue := newValue + wrapIncrement;
    }
    ghost var raised := newValue;
    while newValue > s.max
      invariant LowerTo(newValue, s.max, wrapIncrement) == LowerTo(raised, s.max, wrapIncrement)
      decreases (newValue - s.max).Floor
    {
      newValue := newValue - wrapIncrement;
    }
  }

  // ---------------------------------------------------------------------------
  // IncrementColorChannel
  // ---------------------------------------------------------------------------

  /** What `IncrementColorChannel` returns; bounds are in degrees for hue and in
      percent for saturation and value. */
  function IncrementedColor(name: Namer, hsv: Hsv, ch: Channel, dir: Direction, amount: Amount,
                            wrap: bool, min: real, max: real, fuel: nat): (r: Result<Hsv>)
    ensures r.Failure? && r.error == NotSupported <==> ch == Alpha
    ensures r.Success? ==> SameExcept(r.value, hsv, ch)
    ensures r.Success? && amount == Small && min <= max ==> min <= Scaled(r.value, ch) <= max
  {
    if ch == Alpha then Failure(NotSupported)
    else if amount == Small then Success(SmallIncrement(hsv, ch, dir, wrap, min, max))
    else
      var lo := if ch == Hue then min else min / 100.0;
      var hi := if ch == Hue then max else max / 100.0;
      match NextNamedColor(Search(HsvNamer(name), hsv, ch, dir, wrap, lo, hi), fuel)
      case None => Failure(SearchUnfinished)
      case Some(found) => Success(found)
  }

  method IncrementColorChannel(name: Namer, originalHsv: Hsv, ch: Channel, dir: Direction, amount: Amount,
                               wrap: bool, minBound: real, maxBound: real, fuel: nat)
    returns (r: Result<Hsv>)
    ensures r == IncrementedColor(name, originalHsv, ch, dir, amount, wrap, minBound, maxBound, fuel)
  {
    if ch == Alpha {
      return Failure(NotSupported);
    }
    if amount == Small {
      return Success(SmallIncrement(originalHsv, ch, dir, wrap, minBound, maxBound));
    }
    var lo, hi := minBound, maxBound;
    if ch == Saturation || ch == Value {
      lo, hi := minBound / 100.0, maxBound / 100.0;
    }
    var found := FindNextNamedColor(Search(HsvNamer(name), originalHsv, ch, dir, wrap, lo, hi), fuel);
    r := if found.Some? then Success(found.value) else Failure(SearchUnfinished);
  }

  // ---------------------------------------------------------------------------
  // IncrementAlphaChannel
  // ---------------------------------------------------------------------------

  /** `Math.Ceiling`. */
  function Ceiling(x: real): (n: int)
    ensures x <= n as real < x + 1.0
  {
    -((-x).Floor)
  }

  /** The next multiple of ten strictly above `x` (a large step up). */
  function DecadeAbove(x: real): (n: int)
    ensures n % 10 == 0
    ensures x < n as real <= x + 10.0
  {
    ((x + 10.0) / 10.0).Floor * 10
  }

  /** The next multiple of ten strictly below `x` (a large step down). */
  function DecadeBelow(x: real): (n: int)
    ensures n % 10 == 0
    ensures x - 10.0 <= n as real < x
  {
    Ceiling((x - 10.0) / 10.0) * 10
  }

  /** The alpha step: in percent, one unit for a small step, to the next
      multiple of ten for a large one; out of range lands on the crossed bound,
      or on the other bound when wrapping. Bounds are in percent. */
  function IncrementAlphaChannel(alpha: real, dir: Direction, amount: Amount, wrap: bool,
                                 min: real, max: real): (r: real)
    ensures min <= max ==> min <= 100.0 * r <= max
    ensures var p := 100.0 * alpha;
      var stepped :=
        if amount == Small then p + Signed(dir, 1.0)
        else if dir == Lower then DecadeBelow(p) as real
        else DecadeAbove(p) as real;
      (min <= stepped <= max ==> 100.0 * r == stepped) &&
      (min <= max && stepped < min ==> 100.0 * r == (if wrap then max else min)) &&
      (min <= max && stepped > max ==> 100.0 * r == (if wrap then min else max))
  {
    var percent := alpha * 100.0;
    var stepped :=
      if amount == Small then percent + Signed(dir, 1.0)
      else if dir == Lower then DecadeBelow(percent) as real
      else DecadeAbove(percent) as real;
    var low := if stepped < min then (if wrap then max else min) else stepped;
    var bounded := if low > max then (if wrap then min else max) else low;
    bounded / 100.0
  }
}
