# Voice pool of the Teensy DCO-8 MIDI firmware, in Dafny

This project models the voice engine of an eight-voice MIDI synthesizer firmware (`src/main.cpp`).
The firmware keeps a fixed array of eight `Voice` records. MIDI note events change these records in place:

- `initializeVoices` resets every voice.
- `findVoice` scans for the playing voice that holds a note.
- `findOldestVoice` picks the idle voice with the smallest age.
- `noteOn` does one of three things:
  - it retriggers a note that is already playing;
  - it takes the lowest idle voice;
  - or, with all eight voices playing, it steals the voice with the smallest `noteAge`.
- `noteOff` returns a voice to the idle sentinel: note 0, velocity 0, age 0.

Live code reaches neither `initializeVoices` nor `findOldestVoice`. `setup()` never calls `initializeVoices`, and only the commented-out older `noteOn` calls `findOldestVoice`. Both are still modelled, each on its own.

Each pass of the main loop polls at most one decoded MIDI event and ignores it unless it is on channel 1. On channel 1:

- Note On and Note Off go to the pool.
- Pitch bend is stored as `data1 | (data2 << 7)`.
- Aftertouch and the mod wheel (controller 1) are stored.
- Controller 64 sets the pedal flag `susOn` exactly when its value is above 63.
- Every control change, 1 and 64 included, also becomes the last `knobNumber`/`knobValue`.

Layout:

- `voices.dfy` (module `Voices`): fixed-width integer types, the `Voice` datatype, and the pool specification.
  - The specification is a set of functions over `seq<Voice>`: the scans `FindIndex`, `FirstIdle`, `PlayingCount` and `StealIndex`, and the new states `NoteOnState` and `NoteOffState`.
  - Lemmas state the allocation policy and the invariants.
- `pool.dfy` (module `Pool`): class `VoicePool` holds the `array<Voice>`.
  - Its methods are the firmware's routines, written as the same loops.
  - The three loops inside `noteOn` (count the playing voices, find the voice to steal, find the first free voice) are separate read-only methods that `NoteOn` calls in the firmware's order.
  - Each method is proved against the functions of `Voices`.
- `midi.dfy` (module `Midi`): the decoded event type, the record of global controls, and the pure control update `ApplyControls`.
  - `VoiceStep` and `Run` give the pool after one pass and after many passes of the loop.
  - Class `Synth` holds the pool and the controls. Its `Loop` method calls the pool's methods.

`millis()` becomes a parameter `now` of type `uint32`, because `unsigned long` is 32 bits on the target.

The model follows what the firmware code does, and no more:

- There is no sustain overlay. `susOn` is only stored, and `noteOff` releases a voice whether the pedal is down or not.
- There are no `keyDown` or `sustained` fields.
- There is no pitch mapper. The bend arithmetic exists only as a comment.
- `prevNote` is written only when a voice is newly allocated, not on a retrigger.
- `setup()` never calls `initializeVoices`. `Synth`'s constructor therefore starts from zero-initialised static storage (`ZeroPool`). That pool also satisfies the invariant (`StartPoolsIdle`).

## Model

| member | source | states |
|---|---|---|
| `Voices.FindIndex` | src/main.cpp:108-117 | the result is -1 exactly when no voice has `noteOn` and `midiNote == note`; otherwise it is the lowest such index |
| `Voices.FirstIdle` | src/main.cpp:153-158 | the result is -1 exactly when every voice plays; otherwise it is the lowest idle index |
| `Voices.PlayingCount` | src/main.cpp:135-140 | the playing count is at most the pool size, and equals it exactly when every voice plays |
| `Voices.StealIndex` | src/main.cpp:143-150 | the result is -1 exactly when every age is at least 0xFFFFFFFF; otherwise it is an index whose age is below that, minimal over the pool, and strictly smaller than every age before it (lowest index on ties) |
| `Voices.Release` | src/main.cpp:174-177 | a released voice is the idle sentinel (not playing, note 0, velocity 0, age 0) |
| `Voices.StartPoolsIdle` | src/main.cpp:78-93 | the zero-initialised pool and the pool after `initializeVoices` keep the pool invariant and play nothing; after `initializeVoices` every voice is the idle sentinel with `pitchBend`, `bentNote` and `bentNoteFreq` at 0x2000 |
| `Voices.AgesBelowSentinelAllocate` | src/main.cpp:142-151 | if every playing voice's age is below 0xFFFFFFFF, noteOn always has a voice to write |
| `Voices.StealNeedsAgeBelowSentinel` | src/main.cpp:143-151 | with every voice playing other notes and every age at 0xFFFFFFFF, noteOn has no voice to write: the scan leaves `oldestVoice` at -1 |
| `Voices.NoteOnRetrigger` | src/main.cpp:132-167 | a note already playing keeps its voice; only `noteAge` and `velocity` change, `prevNote` is untouched, and the playing count stays the same |
| `Voices.NoteOnFreeSlot` | src/main.cpp:133-166 | a new note, with an idle voice available, takes the lowest idle voice; that voice records its old `midiNote` in `prevNote`; the playing count grows by one |
| `Voices.NoteOnSteal` | src/main.cpp:142-166 | a new note on a full pool evicts the voice whose age is strictly smallest (lowest index on ties, below 0xFFFFFFFF); that voice records its old note in `prevNote`; the pool stays full; with unique notes, the evicted note then plays nowhere |
| `Voices.NoteOnAssigns` | src/main.cpp:132-167 | after noteOn the chosen voice has `midiNote = n`, `noteOn`, velocity `v` and age `t`; findVoice(n) returns it; every other voice is unchanged; the playing count grows by at most one |
| `Voices.NoteOnTwiceReuses` | src/main.cpp:132-134 | a second noteOn for the same note chooses the same voice and allocates no new one |
| `Voices.NoteOnPreservesInvariant` | src/main.cpp:132-167 | noteOn keeps "no two playing voices share a note" and "idle voices are the sentinel"; it keeps playing ages below 0xFFFFFFFF when `now` is |
| `Voices.NoteOffReleases` | src/main.cpp:171-179 | noteOff of a playing note sets that voice to `noteOn = false`, velocity 0, note 0, age 0; all other voices are unchanged; the playing count drops by one |
| `Voices.NoteOffUnknown` | src/main.cpp:171-179 | noteOff of a note that no voice plays changes nothing |
| `Voices.NoteOffPreservesInvariant` | src/main.cpp:171-179 | noteOff keeps the pool invariant and the age bound; with unique notes, no voice plays the note afterwards |
| `Pool.VoicePool.constructor` | src/main.cpp:76 | the pool starts as eight zeroed voices |
| `Pool.VoicePool.InitializeVoices` | src/main.cpp:78-93 | every voice becomes the initial voice: idle sentinel, bend fields 0x2000, every other field 0 |
| `Pool.VoicePool.FindOldestVoice` | src/main.cpp:96-106 | the result is an idle voice whose age is below 0xFFFFFFFF, minimal among idle voices, and strictly below the ages of earlier idle voices; it is 0 when no idle age is below 0xFFFFFFFF; when idle voices are sentinels it is the lowest idle voice |
| `Pool.VoicePool.FindVoice` | src/main.cpp:108-117 | the result is -1 exactly when no voice plays the note; otherwise it is the lowest index of a voice playing it |
| `Pool.VoicePool.CountPlayingVoices` | src/main.cpp:135-140 | the counting loop of noteOn returns the number of playing voices, `PlayingCount` of the array |
| `Pool.VoicePool.StealScan` | src/main.cpp:143-150 | the stealing loop of noteOn returns `StealIndex` of the array: -1 when no age is below 0xFFFFFFFF, otherwise the strictly smallest age, lowest index on ties |
| `Pool.VoicePool.FirstFreeVoice` | src/main.cpp:153-158 | the free-slot loop of noteOn returns `FirstIdle` of the array: the lowest idle voice, or -1 |
| `Pool.VoicePool.NoteOn` | src/main.cpp:132-167 | the array afterwards is `NoteOnState` of the array before: the retrigger, free-slot and stealing choices above, `prevNote` written only for a new allocation, the chosen voice set to the note, velocity and time |
| `Pool.VoicePool.NoteOff` | src/main.cpp:171-179 | the array afterwards is `NoteOffState` of the array before |
| `Midi.CombineBend` | src/main.cpp:236-238 | the bitwise OR of `data1` and `data2 << 7` lies in 0..32767; for 7-bit data it is `data1 + 128 * data2`, which lies in 0..16383 |
| `Midi.ApplyControls` | src/main.cpp:199-268 | an event on another channel changes nothing. On the channel: pitch bend stores the combined value; controller 64 stores the pedal value and sets `susOn` exactly when the value is above 63; controller 1 sets the mod wheel; every control change sets `knobNumber`/`knobValue`; aftertouch stores data1; Note On stores note and velocity, Note Off the note. The combined pitch bend is always in 0..32767. Each control, `midiNote` and `velocity` included, keeps its value under every event that does not write it |
| `Midi.StepPreservesInvariant` | src/main.cpp:199-225 | one loop pass keeps the pool invariant. When `now` is below 0xFFFFFFFF it also keeps the age bound, so the next Note On, for any note, has a voice to write |
| `Midi.IgnoredEvent` | src/main.cpp:199-268 | no event, or an event on another channel, changes neither the pool nor the controls |
| `Midi.Run` | src/main.cpp:196-269 | over any run of loop passes whose clock readings stay below 0xFFFFFFFF, every Note On has a voice to write, and the pool invariant and age bound hold throughout |
| `Midi.RunFromPowerUpUnique` | src/main.cpp:196-269 | starting from power-up, no such run ever has two playing voices on one note |
| `Midi.Synth.constructor` | src/main.cpp:19-35 | power-up state: zeroed pool, which holds the pool invariant and the age bound; controls zero, pitch bend 8192, `susOn` false |
| `Midi.Synth.Loop` | src/main.cpp:196-269 | one pass of `loop()`: the pool becomes `VoiceStep` of the polled event and the controls become `ControlStep` of it. The object keeps the pool invariant on every pass. Under the age bound (`ClockSafe`) a pass needs nothing more, and the bound survives a pass whose clock reading is below 0xFFFFFFFF |

## Left out

- MIDI transport: `MIDI.read`, `getType`, `getChannel`, `getData1`/`getData2` and `MIDI_CREATE_INSTANCE` are library calls. Their result is the input `Option<MidiEvent>`. Any message normalisation the library does is not part of this model.
- `millis()`: replaced by the `now` parameter.
- Serial debug output (src/main.cpp:206-224, 258), `setup()` and the peripheral headers (src/main.cpp:1-10): I/O with no logic.
- Floating point: the `noteFrequency` table, the float representation of the global `pitchBend` (stored here as the integer it always holds), and the commented-out bend-factor arithmetic (src/main.cpp:227-230).
- `noteVolt` (src/main.cpp:51-59): constant data that no live code reads.
- The commented-out older `noteOn` (src/main.cpp:119-130) and the empty knob-range branch (src/main.cpp:265-267): dead code.
- Globals that no live code writes or reads (`benderValue`, `midiTempo`, `midiController`, `ccNumber`, `ccValue`, `midiNoteVoltage`, `midiNoteFrequency`, `bentNoteFrequency`): they stay at their initial values.
- Pool.VoicePool.NoteOn: it requires `CanAllocate`. When all eight voices play other notes and every age is 0xFFFFFFFF, the firmware writes `voices[-1]`, which is undefined behaviour. The model excludes that case (`StealNeedsAgeBelowSentinel`) and does not model the out-of-bounds write.
- Midi.Run: it covers clock readings below 0xFFFFFFFF only. After `millis()` wraps around, ages are still compared as raw numbers, so a voice started after the wrap looks oldest. The model computes that order faithfully, but no lemma states an ordering in time.
