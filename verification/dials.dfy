/**
  The dial registry of the synth demo: a dial record (a bounded, steppable
  parameter), lookup of a dial by name with a linear scan, and the clamped
  (saturating) adjustment of a dial's value.
 */
module Dials {

  import opened Options

  /** One rotary control. All four numbers are `int32_t` in the program. */
  datatype Dial = Dial(name: string, unit: string, min: int, max: int, value: int, step: int)

  predicate IsInt32(x: int) {
    -0x8000_0000 <= x < 0x8000_0000
  }

  /** The value sits inside the dial's range (which is then non-empty). */
  predicate InBounds(d: Dial) {
    d.min <= d.value <= d.max
  }

  /** Every dial the program builds: 32-bit fields, value in range, a positive step. */
  predicate WellFormed(d: Dial) {
    && IsInt32(d.min) && IsInt32(d.max) && IsInt32(d.value) && IsInt32(d.step)
    && InBounds(d)
    && d.step > 0
  }

  /** The conversion of a signed 32-bit value to `uint32_t`: modulo 2^32. */
  function ToUint32(x: int): (r: nat)
    ensures r < 0x1_0000_0000
    ensures 0 <= x < 0x1_0000_0000 ==> r == x
    ensures x < 0 && IsInt32(x) ==> r == x + 0x1_0000_0000
  {
    x % 0x1_0000_0000
  }

  // ---------------------------------------------------------------------
  // Lookup by name
  // ---------------------------------------------------------------------

  /** Some dial in the list carries `name`. */
  predicate HasDial(dials: seq<Dial>, name: string) {
    exists i :: 0 <= i < |dials| && dials[i].name == name
  }

  /** Index `i` holds the first dial of the list whose name is `name`. */
  predicate IsFirstNamed(dials: seq<Dial>, name: string, i: int) {
    && 0 <= i < |dials|
    && dials[i].name == name
    && forall j :: 0 <= j < i ==> dials[j].name != name
  }

  /** The scan of the list from position `k` on. */
  function FindFrom(dials: seq<Dial>, name: string, k: nat): (r: Option<nat>)
    requires k <= |dials|
    ensures r.Some? ==> k <= r.value < |dials| && dials[r.value].name == name
    ensures r.Some? ==> forall j :: k <= j < r.value ==> dials[j].name != name
    ensures r.None? ==> forall j :: k <= j < |dials| ==> dials[j].name != name
    decreases |dials| - k
  {
    if k == |dials| then None
    else if dials[k].name == name then Some(k)
    else FindFrom(dials, name, k + 1)
  }

  /**
    `get_dial`: the position of the first dial named `name`, or None (the
    null pointer) exactly when no dial has that name.
   */
  function GetDial(dials: seq<Dial>, name: string): (r: Option<nat>)
    ensures r.Some? <==> HasDial(dials, name)
    ensures r.Some? ==> IsFirstNamed(dials, name, r.value)
  {
    FindFrom(dials, name, 0)
  }

  /** The first dial carrying its own name is the one `get_dial` finds. */
  lemma GetDialFindsFirst(dials: seq<Dial>, i: int)
    requires 0 <= i < |dials|
    requires forall j :: 0 <= j < i ==> dials[j].name != dials[i].name
    ensures GetDial(dials, dials[i].name) == Some(i)
  {
    assert HasDial(dials, dials[i].name);
  }

  /** With pairwise distinct names every dial is found at its own position. */
  predicate DistinctNames(dials: seq<Dial>) {
    forall i, j :: 0 <= i < j < |dials| ==> dials[i].name != dials[j].name
  }

  lemma GetDialDistinct(dials: seq<Dial>, i: int)
    requires DistinctNames(dials)
    requires 0 <= i < |dials|
    ensures GetDial(dials, dials[i].name) == Some(i)
  {
    GetDialFindsFirst(dials, i);
  }

  /**
    `get_dial_value`: the value of the dial named `name`, converted to
    `uint32_t`. The program dereferences the lookup result without a null
    check, so the name must be present.
   */
  function GetDialValue(dials: seq<Dial>, name: string): (r: nat)
    requires HasDial(dials, name)
    ensures r < 0x1_0000_0000
    ensures forall i :: IsFirstNamed(dials, name, i) ==> r == ToUint32(dials[i].value)
  {
    var found := GetDial(dials, name);
    ToUint32(dials[found.value].value)
  }

  // ---------------------------------------------------------------------
  // Clamped adjustment
  // ---------------------------------------------------------------------

  /** `a` is `b` with at most its value changed. */
  predicate SameShape(a: Dial, b: Dial) {
    a == b.(value := a.value)
  }

  /**
    `adjust_dial_value`: the value moves by `delta`, is first capped at
    `max` and then raised to `min`. Nothing but the value changes.
   */
  function Adjust(d: Dial, delta: int): (r: Dial)
    ensures SameShape(r, d)
    ensures r.value >= d.min
    ensures d.min <= d.max ==> r.value <= d.max
    ensures d.min <= d.value + delta <= d.max ==> r.value == d.value + delta
    ensures d.min <= d.max < d.value + delta ==> r.value == d.max
    ensures d.value + delta < d.min ==> r.value == d.min
  {
    var moved := d.value + delta;
    var capped := if moved > d.max then d.max else moved;
    var raised := if capped < d.min then d.min else capped;
    d.(value := raised)
  }

  /** A dial in range stays in range, whatever the delta. */
  lemma AdjustKeepsBounds(d: Dial, delta: int)
    requires InBounds(d)
    ensures InBounds(Adjust(d, delta))
    ensures WellFormed(d) ==> WellFormed(Adjust(d, delta))
  {
  }

  /** Clamping saturates: an upward move at `max` stays at `max`. */
  lemma AdjustSaturatesAtMax(d: Dial, delta: int)
    requires InBounds(d) && d.value == d.max && delta >= 0
    ensures Adjust(d, delta) == d
  {
  }

  /** Clamping saturates: a downward move at `min` stays at `min`. */
  lemma AdjustSaturatesAtMin(d: Dial, delta: int)
    requires InBounds(d) && d.value == d.min && delta <= 0
    ensures Adjust(d, delta) == d
  {
  }

  /**
    An independent description of the clamp: when the range is non-empty the
    new value is the point of `[min, max]` nearest to `value + delta`.
   */
  lemma AdjustIsNearestInRange(d: Dial, delta: int, x: int)
    requires d.min <= d.max
    requires d.min <= x <= d.max
    ensures d.min <= Adjust(d, delta).value <= d.max
    ensures Dist(Adjust(d, delta).value, d.value + delta) <= Dist(x, d.value + delta)
  {
  }

  function Dist(a: int, b: int): nat {
    if a <= b then b - a else a - b
  }

  /** A move that did not hit a bound is undone by the opposite move. */
  lemma AdjustRoundTrip(d: Dial, delta: int)
    requires InBounds(d)
    requires d.min <= d.value + delta <= d.max
    ensures Adjust(Adjust(d, delta), -delta) == d
  {
  }

  /** A larger delta never gives a smaller clamped value. */
  lemma AdjustMonotone(d: Dial, delta1: int, delta2: int)
    requires delta1 <= delta2
    ensures Adjust(d, delta1).value <= Adjust(d, delta2).value
  {
  }

  /** Adjusting the dial at position `i` of the list; the other dials are untouched. */
  function AdjustAt(dials: seq<Dial>, i: nat, delta: int): (r: seq<Dial>)
    requires i < |dials|
    ensures |r| == |dials|
    ensures r[i] == Adjust(dials[i], delta)
    ensures forall j :: 0 <= j < |dials| && j != i ==> r[j] == dials[j]
  {
    dials[i := Adjust(dials[i], delta)]
  }

}
