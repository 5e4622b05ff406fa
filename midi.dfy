/**
 * One pass of the firmware's main loop: a decoded MIDI event (or none) is
 * filtered by channel, note events go to the voice pool, and the global
 * control values are updated.
 */
module Midi {
  import opened Voices
  import opened Pool

  /** The one channel the engine listens to. */
  const MidiChannel: int := 1
  /** Controller numbers with a dedicated meaning. */
  const ModWheelController: int := 1
  const SustainController: int := 64
  /** A sustain value above this is pedal down. */
  const SustainThreshold: int := 63

  datatype Option<T> = None | Some(value: T)

  /** The message kinds the loop tests for; every other kind is Other. */
  datatype MessageType = NoteOn | NoteOff | PitchBend | AfterTouchChannel | ControlChange | Other

  /** A message as the transport decodes it: type, channel and the two data bytes. */
  datatype MidiEvent = MidiEvent(kind: MessageType, channel: uint8, data1: uint8, data2: uint8)

  /**
   * The global control variables the loop writes. `pitchBend` is a float in
   * the firmware; it only ever holds the integer built from the two data bytes.
   */
  datatype Controls = Controls(
    midiNote: uint8,
    velocity: uint8,
    pitchBend: int,
    aftertouch: uint8,
    modulationWheel: uint8,
    sustainPedal: uint8,
    susOn: bool,
    knobNumber: uint8,
    knobValue: uint8)

  /** The globals' initial values: everything zero, pitch bend at its centre 8192. */
  const InitialControls: Controls := Controls(0, 0, 8192, 0, 0, 0, false, 0, 0)

  function Pow2(k: nat): (r: nat)
    ensures r >= 1
  {
    if k == 0 then 1 else 2 * Pow2(k - 1)
  }

  /** Bitwise OR of two non-negative integers, one bit at a time. */
  function BitOr(a: nat, b: nat): (r: nat)
    decreases a + b
  {
    if a == 0 then b
    else if b == 0 then a
    else 2 * BitOr(a / 2, b / 2) + (if a % 2 == 1 || b % 2 == 1 then 1 else 0)
  }

  /** OR-ing two values of k bits gives a value of k bits. */
  lemma {:induction false} BitOrBelow(a: nat, b: nat, k: nat)
    requires a < Pow2(k) && b < Pow2(k)
    ensures BitOr(a, b) < Pow2(k)
    decreases k
  {
    if a != 0 && b != 0 {
      BitOrBelow(a / 2, b / 2, k - 1);
    }
  }

  /** OR-ing a k-bit value with a value shifted left by k is their sum. */
  lemma {:induction false} BitOrDisjoint(a: nat, b: nat, k: nat)
    requires a < Pow2(k)
    ensures BitOr(a, b * Pow2(k)) == a + b * Pow2(k)
    decreases k
  {
    if a != 0 && b != 0 {
      var h := b * Pow2(k - 1);
      assert b * Pow2(k) == 2 * h;
      assert (2 * h) / 2 == h && (2 * h) % 2 == 0;
      BitOrDisjoint(a / 2, b, k - 1);
    }
  }

  /** The pitch-bend value `data1 | (data2 << 7)` of two data bytes. */
  function CombineBend(lsb: uint8, msb: uint8): (r: int)
    ensures 0 <= r < 0x8000
    ensures lsb < 0x80 && msb < 0x80 ==> r == lsb + 0x80 * msb && r < 0x4000
  {
    CombineBendBounds(lsb, msb);
    BitOr(lsb, msb * 0x80)
  }

  lemma CombineBendBounds(lsb: uint8, msb: uint8)
    ensures BitOr(lsb, msb * 0x80) < 0x8000
    ensures lsb < 0x80 ==> BitOr(lsb, msb * 0x80) == lsb + 0x80 * msb
  {
    assert Pow2(7) == 0x80 && Pow2(15) == 0x8000;
    BitOrBelow(lsb, msb * 0x80, 15);
    if lsb < 0x80 {
      BitOrDisjoint(lsb, msb, 7);
    }
  }

  predicate OnChannel(e: MidiEvent) {
    e.channel == MidiChannel
  }

  predicate IsCC(e: MidiEvent, controller: int) {
    OnChannel(e) && e.kind == ControlChange && e.data1 == controller
  }

  /**
   * The global-control part of one event: note events record their data in
   * midiNote and velocity, pitch bend combines the two bytes, aftertouch and
   * the mod wheel store their value, controller 64 sets the pedal, and every
   * control change also becomes the last knob.
   */
  function ApplyControls(g: Controls, e: MidiEvent): (r: Controls)
    ensures !OnChannel(e) ==> r == g
    ensures OnChannel(e) && e.kind == PitchBend && e.data1 < 0x80 && e.data2 < 0x80 ==>
      r.pitchBend == e.data1 + 0x80 * e.data2 && 0 <= r.pitchBend < 0x4000
    ensures !(OnChannel(e) && e.kind == PitchBend) ==> r.pitchBend == g.pitchBend
    ensures IsCC(e, SustainController) ==> r.sustainPedal == e.data2 && (r.susOn <==> e.data2 > SustainThreshold)
    ensures !IsCC(e, SustainController) ==> r.susOn == g.susOn && r.sustainPedal == g.sustainPedal
    ensures IsCC(e, ModWheelController) ==> r.modulationWheel == e.data2
    ensures !IsCC(e, ModWheelController) ==> r.modulationWheel == g.modulationWheel
    ensures OnChannel(e) && e.kind == ControlChange ==> r.knobNumber == e.data1 && r.knobValue == e.data2
    ensures !(OnChannel(e) && e.kind == ControlChange) ==> r.knobNumber == g.knobNumber && r.knobValue == g.knobValue
    ensures OnChannel(e) && e.kind == AfterTouchChannel ==> r.aftertouch == e.data1
    ensures !(OnChannel(e) && e.kind == AfterTouchChannel) ==> r.aftertouch == g.aftertouch
    ensures OnChannel(e) && e.kind == PitchBend ==> 0 <= r.pitchBend < 0x8000
    ensures OnChannel(e) && (e.kind == NoteOn || e.kind == NoteOff) ==> r.midiNote == e.data1
    ensures !(OnChannel(e) && (e.kind == NoteOn || e.kind == NoteOff)) ==> r.midiNote == g.midiNote
    ensures OnChannel(e) && e.kind == NoteOn ==> r.velocity == e.data2
    ensures !(OnChannel(e) && e.kind == NoteOn) ==> r.velocity == g.velocity
  {
    if !OnChannel(e) then g
    else match e.kind
      case NoteOn => g.(midiNote := e.data1, velocity := e.data2)
      case NoteOff => g.(midiNote := e.data1)
      case PitchBend => g.(pitchBend := CombineBend(e.data1, e.data2))
      case AfterTouchChannel => g.(aftertouch := e.data1)
      case ControlChange =>
        var wheel := if e.data1 == ModWheelController then g.(modulationWheel := e.data2) else g;
        var pedal := if e.data1 == SustainController
          then wheel.(sustainPedal := e.data2, susOn := e.data2 > SustainThreshold)
          else wheel;
        pedal.(knobNumber := e.data1, knobValue := e.data2)
      case Other => g
  }

  /** The controls after one loop pass; no message leaves them alone. */
  function ControlStep(g: Controls, e: Option<MidiEvent>): Controls {
    match e
    case None => g
    case Some(m) => ApplyControls(g, m)
  }

  /** The pool can take the pass's event: a Note On on the channel needs a voice to write. */
  predicate StepAllowed(s: seq<Voice>, e: Option<MidiEvent>) {
    |s| == NumVoices &&
    (e.Some? && OnChannel(e.value) && e.value.kind == NoteOn ==> CanAllocate(s, e.value.data1))
  }

  /** The voice pool after one loop pass. */
  function VoiceStep(s: seq<Voice>, e: Option<MidiEvent>, now: uint32): seq<Voice>
    requires StepAllowed(s, e)
  {
    match e
    case None => s
    case Some(m) =>
      if !OnChannel(m) then s
      else if m.kind == NoteOn then NoteOnState(s, m.data1, m.data2, now)
      else if m.kind == NoteOff then NoteOffState(s, m.data1)
      else s
  }

  /**
   * One pass keeps the pool invariant; with `now` below the sentinel it also
   * keeps playing ages below it, and the next Note On always has a voice.
   */
  lemma StepPreservesInvariant(s: seq<Voice>, e: Option<MidiEvent>, now: uint32)
    requires StepAllowed(s, e) && PoolInvariant(s)
    ensures PoolInvariant(VoiceStep(s, e, now))
    ensures ActiveAgesBelowSentinel(s) && now < AgeSentinel ==>
      ActiveAgesBelowSentinel(VoiceStep(s, e, now))
    ensures ActiveAgesBelowSentinel(s) && now < AgeSentinel ==>
      forall n :: CanAllocate(VoiceStep(s, e, now), n)
  {
    StepKeepsAges(s, e, now);
    match e
    case None =>
    case Some(m) =>
      if OnChannel(m) && m.kind == NoteOn {
        NoteOnPreservesInvariant(s, m.data1, m.data2, now);
        NoteOnAssigns(s, m.data1, m.data2, now);
      } else if OnChannel(m) && m.kind == NoteOff {
        NoteOffPreservesInvariant(s, m.data1);
      }
  }

  lemma StepKeepsAges(s: seq<Voice>, e: Option<MidiEvent>, now: uint32)
    requires StepAllowed(s, e) && PoolInvariant(s)
    ensures ActiveAgesBelowSentinel(s) && now < AgeSentinel ==>
      ActiveAgesBelowSentinel(VoiceStep(s, e, now)) && forall n :: CanAllocate(VoiceStep(s, e, now), n)
  {
    if ActiveAgesBelowSentinel(s) && now < AgeSentinel {
      var r := VoiceStep(s, e, now);
      match e
      case None =>
      case Some(m) =>
        if OnChannel(m) && m.kind == NoteOn {
          NoteOnPreservesInvariant(s, m.data1, m.data2, now);
          NoteOnAssigns(s, m.data1, m.data2, now);
        } else if OnChannel(m) && m.kind == NoteOff {
          NoteOffPreservesInvariant(s, m.data1);
        }
      forall n ensures CanAllocate(r, n) {
        AgesBelowSentinelAllocate(r, n);
      }
    }
  }

  /** An event on another channel, or no event, changes neither the pool nor the controls. */
  lemma IgnoredEvent(s: seq<Voice>, g: Controls, e: Option<MidiEvent>, now: uint32)
    requires |s| == NumVoices
    requires e.None? || !OnChannel(e.value)
    ensures StepAllowed(s, e)
    ensures VoiceStep(s, e, now) == s && ControlStep(g, e) == g
  {
  }

  /** A pass of the loop: the event it polled and the millis() value it reads. */
  datatype Tick = Tick(event: Option<MidiEvent>, now: uint32)

  /**
   * The pool after a run of loop passes. While every clock reading stays
   * below the sentinel, every pass can take its event, and the pool
   * invariant and the age bound hold throughout.
   */
  function Run(s: seq<Voice>, ticks: seq<Tick>): (r: seq<Voice>)
    requires PoolInvariant(s) && ActiveAgesBelowSentinel(s)
    requires forall k :: 0 <= k < |ticks| ==> ticks[k].now < AgeSentinel
    ensures PoolInvariant(r) && ActiveAgesBelowSentinel(r)
    decreases |ticks|
  {
    if |ticks| == 0 then s
    else
      var t := ticks[0];
      AgesBelowSentinelAllocate(s, if t.event.Some? then t.event.value.data1 else 0);
      StepPreservesInvariant(s, t.event, t.now);
      Run(VoiceStep(s, t.event, t.now), ticks[1..])
  }

  /** From power-up, no run with clock readings below the sentinel makes two voices play one note. */
  lemma RunFromPowerUpUnique(ticks: seq<Tick>)
    requires forall k :: 0 <= k < |ticks| ==> ticks[k].now < AgeSentinel
    ensures UniqueNotes(Run(ZeroPool, ticks)) && IdleIsSentinel(Run(ZeroPool, ticks))
  {
    StartPoolsIdle();
  }

  /** The firmware's global state: the voice pool and the control variables. */
  class Synth {
    const pool: VoicePool
    var controls: Controls

    /** The pool has its fixed size and keeps the pool invariant. */
    ghost predicate Valid()
      reads this, pool.voices
    {
      pool.Valid() && PoolInvariant(pool.voices[..])
    }

    /** Every playing voice was started at a clock reading below the sentinel. */
    ghost predicate ClockSafe()
      reads this, pool.voices
    {
      ActiveAgesBelowSentinel(pool.voices[..])
    }

    /** Power-up: static storage zeroed, controls at their declared initial values. */
    constructor ()
      ensures Valid() && ClockSafe() && fresh(pool) && fresh(pool.voices)
      ensures pool.voices[..] == ZeroPool && controls == InitialControls
    {
      pool := new VoicePool();
      controls := InitialControls;
      StartPoolsIdle();
    }

    /**
     * One pass of loop(): dispatch the polled event, if any. A pass needs a
     * voice for an on-channel Note On, which ClockSafe provides; ClockSafe
     * lasts while the clock reading stays below the sentinel.
     */
    method Loop(e: Option<MidiEvent>, now: uint32)
      requires Valid() && (ClockSafe() || StepAllowed(pool.voices[..], e))
      modifies this, pool.voices
      ensures Valid()
      ensures old(ClockSafe()) && now < AgeSentinel ==> ClockSafe()
      ensures pool.voices[..] == VoiceStep(old(pool.voices[..]), e, now)
      ensures controls == ControlStep(old(controls), e)
    {
      ghost var s := pool.voices[..];
      if e.Some? && ActiveAgesBelowSentinel(s) {
        AgesBelowSentinelAllocate(s, e.value.data1);
      }
      assert StepAllowed(s, e);
      StepPreservesInvariant(s, e, now);
      match e {
        case None =>
        case Some(m) =>
          if m.kind == NoteOn && OnChannel(m) {
            pool.NoteOn(m.data1, m.data2, now);
          }
          if m.kind == NoteOff && OnChannel(m) {
            pool.NoteOff(m.data1);
          }
          controls := ApplyControls(controls, m);
      }
    }
  }
}
