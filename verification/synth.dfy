/**
  The synth demo's world: the eleven-dial table built at start-up, the voice
  record handed to the audio engine, and the per-frame update that turns the
  four direction buttons into dial adjustments, selector moves and voice
  submissions.
 */
module Synth {

  import opened Options
  import opened Dials
  import opened Selector

  // ---------------------------------------------------------------------
  // Voice record
  // ---------------------------------------------------------------------

  /** The synthesizer's parameter record; each field is a `uint32_t` read from a dial. */
  datatype Voice = Voice(
    frequency: nat, bend: nat, attack: nat, decay: nat, hold: nat, release: nat,
    reverb: nat, sustain: nat, volume: nat, noise: nat, distort: nat)

  /** The number of dials, and of voice fields they drive. */
  const DialCount := 11

  /** The dial names the update reads, in the order it reads them (also the order `init` pushes them). */
  function VoiceName(k: nat): string
    requires k < DialCount
  {
    match k
    case 0 => "frequency"
    case 1 => "volume"
    case 2 => "sustain"
    case 3 => "distort"
    case 4 => "attack"
    case 5 => "decay"
    case 6 => "hold"
    case 7 => "release"
    case 8 => "reverb"
    case 9 => "bend"
    case _ => "noise"
  }

  /** The voice field the dial named `VoiceName(k)` drives. */
  function Field(v: Voice, k: nat): nat
    requires k < DialCount
  {
    match k
    case 0 => v.frequency
    case 1 => v.volume
    case 2 => v.sustain
    case 3 => v.distort
    case 4 => v.attack
    case 5 => v.decay
    case 6 => v.hold
    case 7 => v.release
    case 8 => v.reverb
    case 9 => v.bend
    case _ => v.noise
  }

  /** Every voice name is carried by some dial, so every lookup in the update succeeds. */
  predicate HasVoiceDials(dials: seq<Dial>) {
    forall k :: 0 <= k < DialCount ==> HasDial(dials, VoiceName(k))
  }

  /**
    The voice mirrors the dials: every voice field holds the (`uint32_t`)
    value of the first dial carrying that field's name.
   */
  predicate Mirrors(v: Voice, dials: seq<Dial>) {
    forall k, i :: 0 <= k < DialCount && 0 <= i < |dials| && IsFirstNamed(dials, VoiceName(k), i) ==>
      Field(v, k) == ToUint32(dials[i].value)
  }

  /** The voice with field `k` set to `x` and every other field kept. */
  function SetField(v: Voice, k: nat, x: nat): (r: Voice)
    requires k < DialCount
    ensures Field(r, k) == x
    ensures forall j :: 0 <= j < DialCount && j != k ==> Field(r, j) == Field(v, j)
  {
    match k
    case 0 => v.(frequency := x)
    case 1 => v.(volume := x)
    case 2 => v.(sustain := x)
    case 3 => v.(distort := x)
    case 4 => v.(attack := x)
    case 5 => v.(decay := x)
    case 6 => v.(hold := x)
    case 7 => v.(release := x)
    case 8 => v.(reverb := x)
    case 9 => v.(bend := x)
    case _ => v.(noise := x)
  }

  /**
    The assignments of the update from field `k` on: each field in turn is
    overwritten with `get_dial_value` of its name; earlier fields are kept.
   */
  function RefreshFrom(dials: seq<Dial>, v: Voice, k: nat): (r: Voice)
    requires k <= DialCount
    requires HasVoiceDials(dials)
    ensures forall j :: k <= j < DialCount ==> Field(r, j) == GetDialValue(dials, VoiceName(j))
    ensures forall j :: 0 <= j < k ==> Field(r, j) == Field(v, j)
    decreases DialCount - k
  {
    if k == DialCount then v
    else RefreshFrom(dials, SetField(v, k, GetDialValue(dials, VoiceName(k))), k + 1)
  }

  /** The voice record rewritten from all eleven dial values. */
  function Refresh(dials: seq<Dial>, v: Voice): (r: Voice)
    requires HasVoiceDials(dials)
    ensures Mirrors(r, dials)
  {
    RefreshFrom(dials, v, 0)
  }

  /** Two mirroring voices agree on every field whose name some dial carries. */
  lemma MirroredFieldsAgree(dials: seq<Dial>, v1: Voice, v2: Voice, k: nat)
    requires k < DialCount && HasDial(dials, VoiceName(k))
    requires Mirrors(v1, dials) && Mirrors(v2, dials)
    ensures Field(v1, k) == Field(v2, k)
  {
    var i := GetDial(dials, VoiceName(k)).value;
    assert IsFirstNamed(dials, VoiceName(k), i);
  }

  /** Mirroring pins down the whole record: there is only one voice that mirrors given dials. */
  lemma MirrorDeterminesVoice(dials: seq<Dial>, v1: Voice, v2: Voice)
    requires HasVoiceDials(dials)
    requires Mirrors(v1, dials) && Mirrors(v2, dials)
    ensures v1 == v2
  {
    forall k | 0 <= k < DialCount
      ensures Field(v1, k) == Field(v2, k)
    {
      MirroredFieldsAgree(dials, v1, v2, k);
    }
    assert Field(v1, 0) == Field(v2, 0) && Field(v1, 1) == Field(v2, 1) && Field(v1, 2) == Field(v2, 2);
    assert Field(v1, 3) == Field(v2, 3) && Field(v1, 4) == Field(v2, 4) && Field(v1, 5) == Field(v2, 5);
    assert Field(v1, 6) == Field(v2, 6) && Field(v1, 7) == Field(v2, 7) && Field(v1, 8) == Field(v2, 8);
    assert Field(v1, 9) == Field(v2, 9) && Field(v1, 10) == Field(v2, 10);
  }

  // ---------------------------------------------------------------------
  // Start-up table
  // ---------------------------------------------------------------------

  /** One row of the start-up table: name, unit, min, max, initial value, step. */
  function TableDial(k: nat): (d: Dial)
    requires k < DialCount
    ensures d.name == VoiceName(k)
    ensures WellFormed(d)
    ensures 0 <= d.min && d.max <= 8000 && d.step <= 5
  {
    match k
    case 0 => Dial("frequency", "hz", 0, 8000, 440, 5)
    case 1 => Dial("volume", "%", 0, 100, 100, 1)
    case 2 => Dial("sustain", "%", 0, 100, 80, 1)
    case 3 => Dial("distort", "%", 0, 100, 0, 1)
    case 4 => Dial("attack", "ms", 0, 1000, 100, 5)
    case 5 => Dial("decay", "ms", 0, 1000, 50, 5)
    case 6 => Dial("hold", "ms", 0, 1000, 500, 5)
    case 7 => Dial("release", "ms", 0, 1000, 250, 5)
    case 8 => Dial("reverb", "ms", 0, 2000, 0, 5)
    case 9 => Dial("bend", "hz", 0, 100, 0, 1)
    case _ => Dial("noise", "%", 0, 100, 0, 1)
  }

  /** The voice names are pairwise distinct. */
  lemma VoiceNamesDistinct(i: nat, j: nat)
    requires i < j < DialCount
    ensures VoiceName(i) != VoiceName(j)
  {
    assert |VoiceName(i)| != |VoiceName(j)| || VoiceName(i)[0] != VoiceName(j)[0];
  }

  /** `init`: the eleven dials, in the order they are pushed. */
  function InitDials(): (r: seq<Dial>)
    ensures |r| == DialCount
    ensures forall k :: 0 <= k < |r| ==> r[k] == TableDial(k)
  {
    seq(DialCount, k requires 0 <= k < DialCount => TableDial(k))
  }

  /**
    The start-up table is sound: distinct names, one per voice field in the
    update's order, every value within its range and every step positive.
   */
  lemma InitTableSound()
    ensures DistinctNames(InitDials())
    ensures forall k :: 0 <= k < DialCount ==> InitDials()[k].name == VoiceName(k)
    ensures forall k :: 0 <= k < DialCount ==> WellFormed(InitDials()[k])
    ensures HasVoiceDials(InitDials())
  {
    var r := InitDials();
    forall i, j | 0 <= i < j < |r|
      ensures r[i].name != r[j].name
    {
      VoiceNamesDistinct(i, j);
    }
    forall k | 0 <= k < DialCount
      ensures HasDial(r, VoiceName(k))
    {
      assert r[k].name == VoiceName(k);
    }
  }

  /** The hard-coded voice the program starts with, before any dial is touched. */
  const InitialVoice: Voice := Voice(
    frequency := 440, bend := 0, attack := 500, decay := 250, hold := 800, release := 500,
    reverb := 0, sustain := 80, volume := 100, noise := 100, distort := 0)

  // ---------------------------------------------------------------------
  // State and per-frame update
  // ---------------------------------------------------------------------

  /** The four direction buttons for one frame: UP/DOWN held, LEFT/RIGHT freshly pressed. */
  datatype Buttons = Buttons(up: bool, down: bool, left: bool, right: bool)

  const HoldUp := Buttons(true, false, false, false)
  const HoldDown := Buttons(false, true, false, false)
  const PressRight := Buttons(false, false, false, true)

  /** The program's world: the dial list, the active-dial index and the voice record. */
  datatype Synth = Synth(dials: seq<Dial>, active: nat, voice: Voice)

  /** One frame's outcome: the new world, and the voice handed to `play`, if any. */
  datatype Frame = Frame(state: Synth, played: Option<Voice>)

  /** What the update needs to run without indexing out of range or dereferencing null. */
  predicate Ready(s: Synth) {
    && s.active < |s.dials|
    && HasVoiceDials(s.dials)
  }

  /**
    The invariant of every reachable world: the start-up table with only
    values changed, each value in its dial's range, and the index in range.
   */
  predicate Inv(s: Synth) {
    && |s.dials| == DialCount
    && s.active < |s.dials|
    && forall k :: 0 <= k < |s.dials| ==> SameShape(s.dials[k], TableDial(k)) && InBounds(s.dials[k])
  }

  /** A reachable world can run a frame, and all its dials are well formed. */
  lemma InvIsReady(s: Synth)
    requires Inv(s)
    ensures Ready(s)
    ensures forall k :: 0 <= k < |s.dials| ==> WellFormed(s.dials[k])
  {
    forall k | 0 <= k < DialCount
      ensures HasDial(s.dials, VoiceName(k))
    {
      assert s.dials[k].name == TableDial(k).name;
    }
    forall k | 0 <= k < |s.dials|
      ensures WellFormed(s.dials[k])
    {
      assert SameShape(s.dials[k], TableDial(k));
    }
  }

  /** The dials of a reachable world carry pairwise distinct names. */
  lemma InvNamesDistinct(s: Synth)
    requires Inv(s)
    ensures DistinctNames(s.dials)
  {
    forall i, j | 0 <= i < j < |s.dials|
      ensures s.dials[i].name != s.dials[j].name
    {
      assert s.dials[i].name == TableDial(i).name;
      assert s.dials[j].name == TableDial(j).name;
      VoiceNamesDistinct(i, j);
    }
  }

  /** `init` together with the global initialisers: the first dial is active. */
  function Init(): (r: Synth)
    ensures Inv(r) && Ready(r)
    ensures r.dials == InitDials() && r.active == 0 && r.voice == InitialVoice
  {
    InitTableSound();
    Synth(InitDials(), 0, InitialVoice)
  }

  /** Dial lists that agree on every name have the same names present. */
  lemma SameNamesSameLookups(a: seq<Dial>, b: seq<Dial>)
    requires |a| == |b|
    requires forall j :: 0 <= j < |a| ==> a[j].name == b[j].name
    requires HasVoiceDials(a)
    ensures HasVoiceDials(b)
  {
    forall k | 0 <= k < DialCount
      ensures HasDial(b, VoiceName(k))
    {
      assert HasDial(a, VoiceName(k));
      var i :| 0 <= i < |a| && a[i].name == VoiceName(k);
      assert b[i].name == VoiceName(k);
    }
  }

  /**
    The dial half of a frame: UP adds the active dial's step, then DOWN
    subtracts it, each clamped; only the active dial's value can change.
   */
  function AdjustActive(dials: seq<Dial>, i: nat, up: bool, down: bool): (r: seq<Dial>)
    requires i < |dials|
    ensures |r| == |dials|
    ensures forall j :: 0 <= j < |dials| && j != i ==> r[j] == dials[j]
    ensures SameShape(r[i], dials[i])
    ensures !up && !down ==> r == dials
    ensures up && !down ==> r[i] == Adjust(dials[i], dials[i].step)
    ensures down && !up ==> r[i] == Adjust(dials[i], -dials[i].step)
    ensures up && down ==> r[i] == Adjust(Adjust(dials[i], dials[i].step), -dials[i].step)
    ensures InBounds(dials[i]) ==> InBounds(r[i])
  {
    var afterUp := if up then AdjustAt(dials, i, dials[i].step) else dials;
    if down then AdjustAt(afterUp, i, -afterUp[i].step) else afterUp
  }

  /**
    The selector half of a frame: LEFT moves back, then RIGHT moves on, each
    with wrap-around; pressing both lands where it started.
   */
  function MoveSelector(i: nat, n: nat, left: bool, right: bool): (r: nat)
    requires i < n
    ensures r < n
    ensures left && !right ==> r == Prev(i, n)
    ensures right && !left ==> r == Next(i, n)
    ensures left == right ==> r == i
  {
    PrevNextInverse(i, n);
    var afterLeft := if left then Prev(i, n) else i;
    if right then Next(afterLeft, n) else afterLeft
  }

  /**
    `update`: the active dial is adjusted and the selector moved as above, and
    when UP or DOWN was held the whole voice record is rebuilt from the dials
    and played.
   */
  function Update(s: Synth, b: Buttons): (f: Frame)
    requires Ready(s)
    ensures f.played.Some? <==> b.up || b.down
    ensures f.played.Some? ==> f.played.value == f.state.voice && Mirrors(f.state.voice, f.state.dials)
    ensures !(b.up || b.down) ==> f.state.voice == s.voice
    ensures f.state.dials == AdjustActive(s.dials, s.active, b.up, b.down)
    ensures f.state.active == MoveSelector(s.active, |s.dials|, b.left, b.right)
    ensures Ready(f.state)
  {
    var dials := AdjustActive(s.dials, s.active, b.up, b.down);
    var active := MoveSelector(s.active, |s.dials|, b.left, b.right);
    SameNamesSameLookups(s.dials, dials);
    if b.up || b.down then
      var v := Refresh(dials, s.voice);
      Frame(Synth(dials, active, v), Some(v))
    else
      Frame(Synth(dials, active, s.voice), None)
  }

  /** Every frame keeps the world reachable-shaped: bounds, index range and the table's fixed fields. */
  lemma UpdatePreservesInv(s: Synth, b: Buttons)
    requires Inv(s)
    ensures Ready(s)
    ensures Inv(Update(s, b).state)
  {
    InvIsReady(s);
    var t := Update(s, b).state;
    forall k | 0 <= k < |t.dials|
      ensures SameShape(t.dials[k], TableDial(k)) && InBounds(t.dials[k])
    {
      if k == s.active {
        assert SameShape(t.dials[k], s.dials[k]);
        assert InBounds(s.dials[k]);
      }
    }
  }

  /**
    The C++ arithmetic of a frame never leaves `int32_t`: the step, its
    negation and both intermediate sums fit, from every reachable world.
   */
  lemma UpdateStaysInInt32(s: Synth)
    requires Inv(s)
    ensures IsInt32(s.dials[s.active].step) && IsInt32(-s.dials[s.active].step)
    ensures IsInt32(s.dials[s.active].value + s.dials[s.active].step)
    ensures IsInt32(Adjust(s.dials[s.active], s.dials[s.active].step).value - s.dials[s.active].step)
    ensures IsInt32(s.dials[s.active].value - s.dials[s.active].step)
  {
    var k := s.active;
    assert SameShape(s.dials[k], TableDial(k));
    assert WellFormed(TableDial(k));
    assert TableDial(k).max <= 8000 && TableDial(k).step <= 5;
  }

  /** In a reachable world a mirroring voice holds, field by field, the matching dial's value. */
  lemma MirrorsReadsDials(s: Synth, v: Voice)
    requires Inv(s)
    requires Mirrors(v, s.dials)
    ensures forall k :: 0 <= k < DialCount ==> Field(v, k) == s.dials[k].value
  {
    InvNamesDistinct(s);
    forall k | 0 <= k < DialCount
      ensures Field(v, k) == s.dials[k].value
    {
      assert s.dials[k].name == VoiceName(k);
      GetDialDistinct(s.dials, k);
      assert IsFirstNamed(s.dials, VoiceName(k), k);
      assert 0 <= s.dials[k].value <= 8000 by {
        assert SameShape(s.dials[k], TableDial(k));
      }
    }
  }

  /** The start-up voice does not mirror the start-up dials (attack is 500, its dial 100). */
  lemma InitialVoiceIsNotMirrored()
    ensures !Mirrors(InitialVoice, InitDials())
  {
    var dials := InitDials();
    InitTableSound();
    GetDialDistinct(dials, 4);
    assert dials[4] == TableDial(4);
    assert IsFirstNamed(dials, VoiceName(4), 4);
    assert Field(InitialVoice, 4) != ToUint32(dials[4].value);
  }

  // ---------------------------------------------------------------------
  // Runs of frames
  // ---------------------------------------------------------------------

  /**
    The world after the host has called `update` once per entry of `inputs`,
    in order. Every such run from a reachable world stays reachable.
   */
  function Run(s: Synth, inputs: seq<Buttons>): (r: Synth)
    requires Inv(s)
    ensures Inv(r)
    decreases |inputs|
  {
    if |inputs| == 0 then s
    else
      var prev := Run(s, inputs[..|inputs| - 1]);
      UpdatePreservesInv(prev, inputs[|inputs| - 1]);
      Update(prev, inputs[|inputs| - 1]).state
  }

  /** One more entry of input is one more frame on top of the run so far. */
  lemma RunOneMore(s: Synth, inputs: seq<Buttons>, n: nat)
    requires Inv(s)
    requires n < |inputs|
    ensures Run(s, inputs[..n + 1]) == Update(Run(s, inputs[..n]), inputs[n]).state
  {
    var p := inputs[..n + 1];
    assert |p| == n + 1 && p[..n] == inputs[..n] && p[n] == inputs[n];
  }

  /** Some entry before `n` holds UP or DOWN. */
  predicate HeldBefore(inputs: seq<Buttons>, n: nat)
    requires n <= |inputs|
  {
    exists k :: 0 <= k < n && (inputs[k].up || inputs[k].down)
  }

  /**
    What the frame loop knows after `n` entries: it is at the world `Run`
    reaches, that world is reachable, the voice mirrors the dials once it
    did or once a frame held UP or DOWN, and an idle run changed nothing.
   */
  predicate LoopFacts(s: Synth, inputs: seq<Buttons>, n: nat, r: Synth)
    requires Inv(s)
    requires n <= |inputs|
  {
    && r == Run(s, inputs[..n])
    && Inv(r)
    && ((Mirrors(s.voice, s.dials) || HeldBefore(inputs, n)) ==> Mirrors(r.voice, r.dials))
    && (!HeldBefore(inputs, n) ==> r.dials == s.dials && r.voice == s.voice)
  }

  /** A frame after the voice came to mirror the dials, or one holding UP or DOWN, leaves it mirroring them. */
  lemma MirrorStep(s: Synth, inputs: seq<Buttons>, n: nat, r: Synth)
    requires n < |inputs|
    requires Ready(r)
    requires (Mirrors(s.voice, s.dials) || HeldBefore(inputs, n)) ==> Mirrors(r.voice, r.dials)
    ensures var t := Update(r, inputs[n]).state;
      (Mirrors(s.voice, s.dials) || HeldBefore(inputs, n + 1)) ==> Mirrors(t.voice, t.dials)
  {
    var b := inputs[n];
    if b.up || b.down {
      assert HeldBefore(inputs, n + 1);
    } else if HeldBefore(inputs, n + 1) {
      var k :| 0 <= k < n + 1 && (inputs[k].up || inputs[k].down);
      assert k < n;
    }
  }

  /** A frame in a run that never held UP or DOWN changes neither the dials nor the voice. */
  lemma IdleStep(s: Synth, inputs: seq<Buttons>, n: nat, r: Synth)
    requires n < |inputs|
    requires Ready(r)
    requires !HeldBefore(inputs, n) ==> r.dials == s.dials && r.voice == s.voice
    ensures var t := Update(r, inputs[n]).state;
      !HeldBefore(inputs, n + 1) ==> t.dials == s.dials && t.voice == s.voice
  {
    var b := inputs[n];
    if !HeldBefore(inputs, n + 1) {
      assert !(b.up || b.down);
      assert !HeldBefore(inputs, n);
    }
  }

  /** One frame of the loop keeps what the loop knows. */
  lemma LoopStep(s: Synth, inputs: seq<Buttons>, n: nat, r: Synth)
    requires Inv(s)
    requires n < |inputs|
    requires LoopFacts(s, inputs, n, r)
    ensures Ready(r)
    ensures LoopFacts(s, inputs, n + 1, Update(r, inputs[n]).state)
  {
    InvIsReady(r);
    UpdatePreservesInv(r, inputs[n]);
    RunOneMore(s, inputs, n);
    MirrorStep(s, inputs, n, r);
    IdleStep(s, inputs, n, r);
  }

  /**
    The host's frame loop: one `update` per entry of `inputs`, reaching the
    world `Run` describes. Once the voice mirrors the dials, or once any
    frame holds UP or DOWN, it mirrors them at the end (no frame leaves a
    partial update); with neither button ever held the dial values and the
    voice are never touched.
   */
  method RunFrames(s: Synth, inputs: seq<Buttons>) returns (r: Synth)
    requires Inv(s)
    ensures r == Run(s, inputs)
    ensures Inv(r)
    ensures (Mirrors(s.voice, s.dials) || exists k :: 0 <= k < |inputs| && (inputs[k].up || inputs[k].down))
      ==> Mirrors(r.voice, r.dials)
    ensures (forall k :: 0 <= k < |inputs| ==> !inputs[k].up && !inputs[k].down)
      ==> r.dials == s.dials && r.voice == s.voice
  {
    r := s;
    var n := 0;
    assert inputs[..0] == [];
    while n < |inputs|
      invariant n <= |inputs|
      invariant LoopFacts(s, inputs, n, r)
    {
      LoopStep(s, inputs, n, r);
      r := Update(r, inputs[n]).state;
      n := n + 1;
    }
    assert inputs[..n] == inputs;
  }

  /** The world after `k` frames with DOWN held and no other button. */
  function DownFrames(s: Synth, k: nat): (r: Synth)
    requires Ready(s)
    ensures Ready(r)
    ensures |r.dials| == |s.dials|
    decreases k
  {
    if k == 0 then s else Update(DownFrames(s, k - 1), HoldDown).state
  }

  /**
    `r` is `s` with only the active dial's value lowered, by `amount`: the
    same selector, the same list length and every other dial as it was.
   */
  predicate LoweredBy(s: Synth, r: Synth, amount: int) {
    && s.active < |s.dials|
    && |r.dials| == |s.dials|
    && r.active == s.active
    && r.dials[r.active] == s.dials[s.active].(value := s.dials[s.active].value - amount)
    && forall j :: 0 <= j < |s.dials| && j != s.active ==> r.dials[j] == s.dials[j]
  }

  /** Lowering by `x` and then by `y` is lowering by `x + y`. */
  lemma LoweredByThen(a: Synth, b: Synth, c: Synth, x: int, y: int)
    requires LoweredBy(a, b, x) && LoweredBy(b, c, y)
    ensures LoweredBy(a, c, x + y)
  {
  }

  /**
    DOWN held for `k` frames, with room for `k` steps: the active dial goes
    down by exactly `k` steps (no clamping), the selector stays put and the
    other dials keep their values.
   */
  lemma {:induction false} HoldDownLowers(s: Synth, k: nat)
    requires Inv(s)
    requires s.dials[s.active].value - k * s.dials[s.active].step >= s.dials[s.active].min
    ensures Ready(s)
    ensures Inv(DownFrames(s, k))
    ensures LoweredBy(s, DownFrames(s, k), k * s.dials[s.active].step)
    decreases k
  {
    InvIsReady(s);
    var d := s.dials[s.active];
    if k == 0 {
      assert d.(value := d.value - 0) == d;
    } else {
      assert WellFormed(d);
      FewerSteps(k, d.step);
      HoldDownLowers(s, k - 1);
      var u := DownFrames(s, k - 1);
      assert u.dials[u.active] == d.(value := d.value - (k - 1) * d.step);
      DownFramesStep(s, k);
      LoweredByThen(s, u, DownFrames(s, k), (k - 1) * d.step, d.step);
    }
  }

  /** The `k`-th frame of a DOWN run, with room for a whole step, is one `DownFrame`. */
  lemma DownFramesStep(s: Synth, k: nat)
    requires Ready(s)
    requires k > 0
    requires var u := DownFrames(s, k - 1);
      Inv(u) && u.dials[u.active].value - u.dials[u.active].step >= u.dials[u.active].min
    ensures var u := DownFrames(s, k - 1);
      Inv(DownFrames(s, k)) && LoweredBy(u, DownFrames(s, k), u.dials[u.active].step)
  {
    DownFrame(DownFrames(s, k - 1));
  }

  /** One step fewer is exactly one step less, and never more. */
  lemma FewerSteps(k: nat, step: int)
    requires k > 0 && step > 0
    ensures (k - 1) * step == k * step - step
    ensures (k - 1) * step <= k * step
  {
  }

  /** One frame of DOWN with room for a whole step lowers the active dial by exactly one step. */
  lemma DownFrame(s: Synth)
    requires Inv(s)
    requires s.dials[s.active].value - s.dials[s.active].step >= s.dials[s.active].min
    ensures Ready(s)
    ensures Inv(Update(s, HoldDown).state)
    ensures LoweredBy(s, Update(s, HoldDown).state, s.dials[s.active].step)
    ensures Mirrors(Update(s, HoldDown).state.voice, Update(s, HoldDown).state.dials)
  {
    InvIsReady(s);
    assert WellFormed(s.dials[s.active]);
    DownFrameLowers(s);
    UpdatePreservesInv(s, HoldDown);
  }

  /** The dial part of one DOWN frame with room for a whole step. */
  lemma DownFrameLowers(s: Synth)
    requires Ready(s)
    requires s.dials[s.active].value <= s.dials[s.active].max && s.dials[s.active].step >= 0
    requires s.dials[s.active].value - s.dials[s.active].step >= s.dials[s.active].min
    ensures LoweredBy(s, Update(s, HoldDown).state, s.dials[s.active].step)
  {
    DownLowersActive(s.dials, s.active);
  }

  /** DOWN alone on an in-range dial with room for a whole step lowers it by exactly that step. */
  lemma DownLowersActive(dials: seq<Dial>, i: nat)
    requires i < |dials|
    requires dials[i].value <= dials[i].max && dials[i].step >= 0
    requires dials[i].value - dials[i].step >= dials[i].min
    ensures AdjustActive(dials, i, false, true)[i] == dials[i].(value := dials[i].value - dials[i].step)
  {
    var d := dials[i];
    assert Adjust(d, -d.step).value == d.value - d.step;
  }

  /** A frame with no button touched changes nothing and plays nothing. */
  lemma IdleFrameChangesNothing(s: Synth)
    requires Ready(s)
    ensures Update(s, Buttons(false, false, false, false)) == Frame(s, None)
  {
    var f := Update(s, Buttons(false, false, false, false));
    assert f.state.dials == s.dials && f.state.active == s.active && f.state.voice == s.voice;
  }

  /**
    In a reachable world, the voice a frame with UP or DOWN plays carries,
    field by field, the new values of the dials in table order.
   */
  lemma UpdatePlaysDialValues(s: Synth, b: Buttons)
    requires Inv(s)
    requires b.up || b.down
    ensures Ready(s)
    ensures Update(s, b).played.Some?
    ensures forall k :: 0 <= k < DialCount ==>
      Field(Update(s, b).played.value, k) == Update(s, b).state.dials[k].value
  {
    UpdatePreservesInv(s, b);
    var f := Update(s, b);
    MirrorsReadsDials(f.state, f.state.voice);
  }

  /** One UP on the start-up table: frequency goes from 440 to 445 and is played. */
  lemma FrequencyExample()
    ensures Update(Init(), HoldUp).state.dials[0].value == 445
    ensures Update(Init(), HoldUp).played.Some?
    ensures Update(Init(), HoldUp).played.value.frequency == 445
  {
    var s := Init();
    UpdatePreservesInv(s, HoldUp);
    var f := Update(s, HoldUp);
    assert s.dials[0] == TableDial(0);
    assert f.state.dials[0] == Adjust(TableDial(0), 5);
    MirrorsReadsDials(f.state, f.state.voice);
    assert Field(f.state.voice, 0) == 445;
  }

  /** A run over a single input is that one frame. */
  lemma RunOneFrame(s: Synth, b: Buttons)
    requires Inv(s)
    ensures Ready(s)
    ensures Run(s, [b]) == Update(s, b).state
  {
    InvIsReady(s);
    RunOneMore(s, [b], 0);
    assert [b][..0] == [] && [b][..1] == [b];
  }

  /**
    The volume dial (second, starting at its maximum 100): RIGHT selects it,
    one UP keeps it at 100, and ten DOWNs after that bring it to 90.
   */
  lemma VolumeExample()
    ensures Update(Init(), PressRight).state.active == 1
    ensures Update(Update(Init(), PressRight).state, HoldUp).state.dials[1].value == 100
    ensures var r := DownFrames(Update(Update(Init(), PressRight).state, HoldUp).state, 10);
      r.active == 1 && r.dials[1].name == "volume" && r.dials[1].value == 90
  {
    var s := Init();
    UpdatePreservesInv(s, PressRight);
    var s1 := Update(s, PressRight).state;
    assert s1.dials == s.dials;
    assert s1.active == 1;
    var volume := s.dials[1];
    assert volume == Dial("volume", "%", 0, 100, 100, 1);
    UpdatePreservesInv(s1, HoldUp);
    var s2 := Update(s1, HoldUp).state;
    assert s2.dials[1] == Adjust(volume, 1) == volume;
    assert s2.active == 1;
    DownsFromFullVolume(s2, 10);
  }

  /** `k` DOWN frames, at most 100, with the volume dial active at 100 leave it active at `100 - k`. */
  lemma DownsFromFullVolume(s: Synth, k: nat)
    requires Inv(s)
    requires s.active == 1 && s.dials[1] == Dial("volume", "%", 0, 100, 100, 1)
    requires k <= 100
    ensures Ready(s)
    ensures var r := DownFrames(s, k);
      r.active == 1 && r.dials[1].name == "volume" && r.dials[1].value == 100 - k
  {
    HoldDownLowers(s, k);
  }

  /**
    UP held at a dial's maximum leaves every dial as it was, yet the voice is
    still rebuilt and played: submission follows the button, not a change.
   */
  lemma UpAtMaxStillPlays(s: Synth)
    requires Ready(s)
    requires InBounds(s.dials[s.active]) && s.dials[s.active].value == s.dials[s.active].max
    requires s.dials[s.active].step >= 0
    ensures Update(s, HoldUp).state.dials == s.dials
    ensures Update(s, HoldUp).played.Some?
  {
    UpAtMaxKeepsDials(s.dials, s.active);
  }

  /** UP alone on a dial at its maximum leaves the whole list as it was. */
  lemma UpAtMaxKeepsDials(dials: seq<Dial>, i: nat)
    requires i < |dials|
    requires InBounds(dials[i]) && dials[i].value == dials[i].max
    requires dials[i].step >= 0
    ensures AdjustActive(dials, i, true, false) == dials
  {
    var r := AdjustActive(dials, i, true, false);
    AdjustSaturatesAtMax(dials[i], dials[i].step);
    assert r[i] == dials[i];
    assert forall j :: 0 <= j < |dials| ==> r[j] == dials[j];
  }

}
