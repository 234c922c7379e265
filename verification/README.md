# Synth demo: dial editing, in Dafny

A model of the parameter-editing logic of the picosystem audio demo
(`examples/audio/audio.cpp`). The demo keeps a list of eleven rotary
"dials" (name, unit, min, max, value, step), an index selecting the active
dial, and a `voice_t` record of synthesizer parameters. Each frame:

- UP and DOWN (held) move the active dial by plus or minus its step, clamped
  into `[min, max]`;
- LEFT and RIGHT (pressed) move the selector, with wrap-around at both ends;
- when UP or DOWN was held, all eleven voice fields are read back from the
  dials by name and the voice is handed to `play`.

Modules:

- `Options`: `Option`, the result of a lookup that may find nothing and of a frame that may play nothing.
- `Dials`: the `dial_t` record, `get_dial` (linear scan by name), `get_dial_value`
  (lookup plus the `int32_t` to `uint32_t` conversion) and `adjust_dial_value`
  (the clamped add).
- `Selector`: the LEFT/RIGHT moves on the active-dial index.
- `Synth`: the voice record, the `init` table, the per-frame `update`, and the
  host's frame loop.

The program's globals (`dials`, `active_dial`, `v`) form one immutable
`Synth` value. `update` is a pure function from a world and a `Buttons`
record to a `Frame`: the new world plus the voice passed to `play`, if any.
`get_dial` returns the position of the dial rather than a pointer.

## Model

| member | source | states |
|---|---|---|
| Dials.FindFrom | examples/audio/audio.cpp:17-22 | the scan from position `k` returns a position holding the name with no earlier match from `k` on, and returns None only when no dial from `k` on has the name |
| Dials.GetDial | examples/audio/audio.cpp:17-22 | the lookup succeeds exactly when some dial has the name, and then returns the first such dial |
| Dials.GetDialFindsFirst | examples/audio/audio.cpp:17-22 | a dial with no earlier namesake is the one found by its own name |
| Dials.GetDialDistinct | examples/audio/audio.cpp:17-22 | with pairwise distinct names, every dial is found at its own position |
| Dials.GetDialValue | examples/audio/audio.cpp:30-33 | the result is below 2^32 and is the `uint32_t` conversion of the first matching dial's value |
| Dials.ToUint32 | examples/audio/audio.cpp:32 | the conversion keeps values in `[0, 2^32)` and adds 2^32 to negative 32-bit values |
| Dials.Adjust | examples/audio/audio.cpp:24-28 | only the value changes; the result is at least `min`, at most `max` when the range is non-empty, exact when `value + delta` is in range, `max` above the range and `min` below it |
| Dials.AdjustKeepsBounds | examples/audio/audio.cpp:24-28 | a dial in range stays in range (and well formed) whatever the delta |
| Dials.AdjustSaturatesAtMax | examples/audio/audio.cpp:26 | an upward move at `max` leaves the dial unchanged |
| Dials.AdjustSaturatesAtMin | examples/audio/audio.cpp:27 | a downward move at `min` leaves the dial unchanged |
| Dials.AdjustIsNearestInRange | examples/audio/audio.cpp:24-28 | the clamped value is the point of `[min, max]` nearest to `value + delta` |
| Dials.AdjustRoundTrip | examples/audio/audio.cpp:24-28 | a move that stays in range is undone by the opposite move |
| Dials.AdjustMonotone | examples/audio/audio.cpp:24-28 | a larger delta never gives a smaller value |
| Dials.AdjustAt | examples/audio/audio.cpp:84 | adjusting the dial at one position leaves the length and every other dial unchanged |
| Selector.Prev | examples/audio/audio.cpp:93-95 | LEFT stays in range; index 0 goes to the last index, any other index goes down by one |
| Selector.Next | examples/audio/audio.cpp:97-99 | RIGHT stays in range; the last index goes to 0, any other index goes up by one |
| Selector.PrevNextInverse | examples/audio/audio.cpp:93-99 | LEFT and RIGHT undo each other |
| Selector.MovesAreModular | examples/audio/audio.cpp:93-99 | RIGHT is `+1` and LEFT is `-1` modulo the number of dials |
| Selector.NextTimesIsModular | examples/audio/audio.cpp:97-99 | `k` presses of RIGHT move the index `k` places modulo the number of dials |
| Selector.FullTurn | examples/audio/audio.cpp:97-99 | one RIGHT press per dial brings the selector back where it started |
| Synth.TableDial | examples/audio/audio.cpp:37-60 | every row of the start-up table carries the name the update looks up at that position, is well formed (32-bit fields, value in range, positive step) and has `0 <= min`, `max <= 8000`, `step <= 5` |
| Synth.VoiceNamesDistinct | examples/audio/audio.cpp:39-59 | the eleven names are pairwise different |
| Synth.InitTableSound | examples/audio/audio.cpp:37-60 | the start-up list has distinct names, in range values and positive steps, and holds every name the update reads |
| Synth.Init | examples/audio/audio.cpp:14-15 | the start-up world satisfies the reachability invariant, with the first dial active and the hard-coded voice |
| Synth.InitialVoiceIsNotMirrored | examples/audio/audio.cpp:62-74 | the hard-coded start-up voice does not match the start-up dials (attack 500 against a dial at 100) |
| Synth.SetField | examples/audio/audio.cpp:103-113 | one voice assignment sets exactly one field |
| Synth.RefreshFrom | examples/audio/audio.cpp:103-113 | the assignments from field `k` on set each later field to its dial's value and keep the earlier ones |
| Synth.Refresh | examples/audio/audio.cpp:102-113 | the rebuilt voice mirrors the dials: each field holds the `uint32_t` value of the first dial with its name |
| Synth.MirrorDeterminesVoice | examples/audio/audio.cpp:102-113 | only one voice mirrors a given dial list |
| Synth.MirrorsReadsDials | examples/audio/audio.cpp:103-113 | in a reachable world a mirroring voice holds, field by field, the value of the dial at that table position |
| Synth.AdjustActive | examples/audio/audio.cpp:83-91 | UP adds the step, then DOWN subtracts it, each clamped; only the active dial's value can change, and an in-range dial stays in range |
| Synth.MoveSelector | examples/audio/audio.cpp:93-99 | LEFT alone is `Prev`, RIGHT alone is `Next`, both or neither leave the index where it was, and the index stays in range |
| Synth.Update | examples/audio/audio.cpp:79-116 | a voice is played if and only if UP or DOWN is held; the played voice is the new voice and mirrors the new dials; with neither held the voice is unchanged; the new world can run another frame |
| Synth.UpdatePreservesInv | examples/audio/audio.cpp:79-99 | every frame keeps the table's names, units, ranges and steps, keeps every value in range and keeps the index in range |
| Synth.UpdateStaysInInt32 | examples/audio/audio.cpp:84-89 | from a reachable world the `int32_t` step, its negation and both sums fit in 32 bits |
| Synth.UpdatePlaysDialValues | examples/audio/audio.cpp:102-114 | a frame with UP or DOWN plays a voice whose every field equals the new value of the dial at that position |
| Synth.IdleFrameChangesNothing | examples/audio/audio.cpp:79-116 | a frame with no button changes nothing and plays nothing |
| Synth.UpAtMaxStillPlays | examples/audio/audio.cpp:83-86 | UP at `max` leaves the dials alone but still plays the voice |
| Synth.FrequencyExample | examples/audio/audio.cpp:39 | one UP from start-up takes frequency from 440 to 445 and plays 445 |
| Synth.Run | examples/audio/audio.cpp:79-116 | the world after one `update` per input, in order; every such run from a reachable world ends in a reachable world |
| Synth.RunOneFrame | examples/audio/audio.cpp:79-116 | a run over a single input ends at the world that one `update` gives |
| Synth.RunFrames | examples/audio/audio.cpp:79-116 | the frame loop ends at exactly the world `Run` reaches by applying `update` to each input in turn; the invariant holds; once any frame held UP or DOWN (or the voice already mirrored the dials) the voice mirrors the dials at the end; with neither ever held the dials and the voice are untouched |
| Synth.HoldDownLowers | examples/audio/audio.cpp:88-91 | `k` frames of DOWN from a reachable world with room for `k` steps lower the active dial by exactly `k * step`, keep the selector and every other dial, and keep the invariant |
| Synth.DownsFromFullVolume | examples/audio/audio.cpp:88-91 | with the volume dial active at 100, `k <= 100` DOWN frames leave it active at `100 - k` |
| Synth.VolumeExample | examples/audio/audio.cpp:41 | from start-up, RIGHT selects the volume dial; UP at 100 stays at 100; ten DOWN frames after that UP leave the volume dial active at 90 |

## Left out

- `draw` and `draw_dial` (lines 119-214): framebuffer drawing, text layout and the floating-point `sin`/`cos` dial dot.
- The waveform panels and the `draw_tick` counter: they read the host audio engine.
- `button`, `pressed` and `play` are host calls. Buttons become the `Buttons` record, and `play(v)` becomes the `played` field of a `Frame`.
- The `unit` string is carried but never interpreted. Display formatting is not part of this model.
- The `voice_t` type and the audio engine behind `play` are not part of this model. The `Voice` datatype holds only the eleven fields the demo sets. `voice_t` is taken to store them as `uint32_t`, matching the return type of `get_dial_value`.
- Adjust: the sum `value + delta` is computed on unbounded integers, not as a wrapping `int32_t` add. `Synth.UpdateStaysInInt32` shows that no frame from a reachable world overflows, so the two agree wherever the program can be.
- Selector.Prev and Selector.Next: `active_dial` is a `uint32_t` and `dials.size() - 1` a `size_t`. The model uses natural numbers, which agree with them because the list is never empty (eleven dials).
- Synth.HoldDownLowers: states only runs that never reach `min`. The clamping at `min` is stated once, per frame, by `Dials.AdjustSaturatesAtMin`.
- Calling `update` before `init`, or `get_dial_value` on a missing name: the program would index an empty list or dereference a null pointer. The model requires a ready world (`Synth.Ready`) and a present name instead.

## Notes on the code

- The program sets `change` whenever UP or DOWN is held, even when clamping leaves the value as it was. Such frames still rebuild and play the voice. The model follows the code: `Synth.Update` plays iff a button is held, and `Synth.UpAtMaxStillPlays` shows the case.
- The hard-coded start-up voice (lines 62-74) is not the voice the start-up dials describe. For example, attack is 500 in the voice but 100 on its dial. The voice mirrors the dials only after the first UP or DOWN, so the mirror property of `Synth.RunFrames` is conditional on such a frame.
