/**
 * The voice records of the synthesizer and the specification of the voice
 * pool as functions of the pool's contents (a sequence of eight voices).
 * The imperative pool in module Pool is proved against these functions.
 */
module Voices {

  /** Fixed-width unsigned integers of the firmware (unsigned long is 32 bits on the target). */
  type uint8 = x: int | 0 <= x < 0x100
  type uint16 = x: int | 0 <= x < 0x1_0000
  type uint32 = x: int | 0 <= x < 0x1_0000_0000

  /** Polyphony: the size of the pool. */
  const NumVoices: nat := 8

  /** Initial "oldest age" of the stealing scan; an age must be strictly below it to be chosen. */
  const AgeSentinel: uint32 := 0xFFFF_FFFF

  /** Centre value written into the per-voice bend fields by initializeVoices. */
  const BendCentre: uint16 := 0x2000

  /** One slot of the pool, field for field as the firmware declares it. */
  datatype Voice = Voice(
    noteAge: uint32,
    midiNote: uint8,
    noteOn: bool,
    velocity: uint8,
    pitchBend: uint16,
    channelPressure: uint8,
    modulationWheel: uint8,
    prevNote: uint8,
    bentNote: uint16,
    bentNoteFreq: uint16,
    lastTime: uint32,
    clockState: bool)

  /** A voice in zero-initialised static storage (the pool before anything writes it). */
  const ZeroVoice: Voice := Voice(0, 0, false, 0, 0, 0, 0, 0, 0, 0, 0, false)

  /** A voice as initializeVoices leaves it. */
  const InitialVoice: Voice :=
    ZeroVoice.(pitchBend := BendCentre, bentNote := BendCentre, bentNoteFreq := BendCentre)

  const ZeroPool: seq<Voice> := seq(NumVoices, _ => ZeroVoice)
  const InitialPool: seq<Voice> := seq(NumVoices, _ => InitialVoice)

  /** The voice is playing `note`. */
  predicate Sounds(v: Voice, note: int) {
    v.noteOn && v.midiNote == note
  }

  /** The idle sentinel: not playing, note 0, velocity 0, age 0. */
  predicate IsIdleSentinel(v: Voice) {
    !v.noteOn && v.midiNote == 0 && v.velocity == 0 && v.noteAge == 0
  }

  /** What noteOn writes into the chosen voice. */
  function Assign(v: Voice, note: uint8, velocity: uint8, now: uint32): Voice {
    v.(noteAge := now, midiNote := note, noteOn := true, velocity := velocity)
  }

  /** What noteOff writes into the released voice. */
  function Release(v: Voice): (r: Voice)
    ensures IsIdleSentinel(r)
  {
    v.(noteOn := false, velocity := 0, midiNote := 0, noteAge := 0)
  }

  // ---------------------------------------------------------------- invariants

  /** No two playing voices hold the same note. */
  predicate UniqueNotes(s: seq<Voice>) {
    forall i, j :: 0 <= i < j < |s| && s[i].noteOn && s[j].noteOn ==> s[i].midiNote != s[j].midiNote
  }

  /** Every idle voice is the idle sentinel. */
  predicate IdleIsSentinel(s: seq<Voice>) {
    forall i :: 0 <= i < |s| && !s[i].noteOn ==> IsIdleSentinel(s[i])
  }

  /** Every playing voice carries an age below the stealing sentinel. */
  predicate ActiveAgesBelowSentinel(s: seq<Voice>) {
    forall i :: 0 <= i < |s| && s[i].noteOn ==> s[i].noteAge < AgeSentinel
  }

  /** The invariant the pool keeps under noteOn, noteOff and initializeVoices. */
  predicate PoolInvariant(s: seq<Voice>) {
    |s| == NumVoices && UniqueNotes(s) && IdleIsSentinel(s)
  }

  // ---------------------------------------------------------------- scans

  /** findVoice: the lowest index of a voice playing `note`, or -1. */
  function FindIndex(s: seq<Voice>, note: int): (r: int)
    ensures -1 <= r < |s|
    ensures r == -1 <==> forall i :: 0 <= i < |s| ==> !Sounds(s[i], note)
    ensures r != -1 ==> Sounds(s[r], note) && forall j :: 0 <= j < r ==> !Sounds(s[j], note)
    decreases |s|
  {
    if |s| == 0 then -1
    else if Sounds(s[0], note) then 0
    else
      var k := FindIndex(s[1..], note);
      if k == -1 then -1 else k + 1
  }

  /** The lowest index of an idle voice, or -1. */
  function FirstIdle(s: seq<Voice>): (r: int)
    ensures -1 <= r < |s|
    ensures r == -1 <==> forall i :: 0 <= i < |s| ==> s[i].noteOn
    ensures r != -1 ==> !s[r].noteOn && forall j :: 0 <= j < r ==> s[j].noteOn
    decreases |s|
  {
    if |s| == 0 then -1
    else if !s[0].noteOn then 0
    else
      var k := FirstIdle(s[1..]);
      if k == -1 then -1 else k + 1
  }

  function Playing(v: Voice): nat {
    if v.noteOn then 1 else 0
  }

  /** The number of playing voices (numPlayingVoices in noteOn). */
  function PlayingCount(s: seq<Voice>): (r: nat)
    ensures r <= |s|
    ensures r == |s| <==> forall i :: 0 <= i < |s| ==> s[i].noteOn
    decreases |s|
  {
    if |s| == 0 then 0 else PlayingCount(s[..|s| - 1]) + Playing(s[|s| - 1])
  }

  /**
   * The stealing scan of noteOn, taken over a prefix: the index of the first
   * voice whose age is strictly the smallest so far, starting from the
   * sentinel age and index -1.
   */
  function StealIndex(s: seq<Voice>): (r: int)
    ensures -1 <= r < |s|
    ensures r == -1 <==> forall i :: 0 <= i < |s| ==> s[i].noteAge >= AgeSentinel
    ensures r != -1 ==>
      && s[r].noteAge < AgeSentinel
      && (forall j :: 0 <= j < |s| ==> s[r].noteAge <= s[j].noteAge)
      && (forall j :: 0 <= j < r ==> s[r].noteAge < s[j].noteAge)
    decreases |s|
  {
    if |s| == 0 then -1
    else
      var k := StealIndex(s[..|s| - 1]);
      var best := if k == -1 then AgeSentinel else s[k].noteAge;
      if s[|s| - 1].noteAge < best then |s| - 1 else k
  }

  // ---------------------------------------------------------------- noteOn and noteOff

  /**
   * noteOn has a voice to write: the note is already playing, or a voice is
   * idle, or some age is below the sentinel (otherwise the firmware writes
   * voices[-1]).
   */
  predicate CanAllocate(s: seq<Voice>, note: int) {
    |s| == NumVoices &&
    (FindIndex(s, note) != -1 || PlayingCount(s) < NumVoices || StealIndex(s) != -1)
  }

  /** The voice noteOn writes: retrigger, lowest free slot, or stolen voice. */
  function ChosenVoice(s: seq<Voice>, note: int): (r: nat)
    requires CanAllocate(s, note)
    ensures r < |s|
  {
    var found := FindIndex(s, note);
    if found != -1 then found
    else if PlayingCount(s) >= NumVoices then StealIndex(s)
    else FirstIdle(s)
  }

  /** The pool after noteOn(note, velocity) at time `now`. */
  function NoteOnState(s: seq<Voice>, note: uint8, velocity: uint8, now: uint32): seq<Voice>
    requires CanAllocate(s, note)
  {
    var i := ChosenVoice(s, note);
    var v := if FindIndex(s, note) == -1 then s[i].(prevNote := s[i].midiNote) else s[i];
    s[i := Assign(v, note, velocity, now)]
  }

  /** The pool after noteOff(note). */
  function NoteOffState(s: seq<Voice>, note: int): seq<Voice> {
    var i := FindIndex(s, note);
    if i == -1 then s else s[i := Release(s[i])]
  }

  // ---------------------------------------------------------------- lemmas

  /** Replacing one voice changes the playing count by that voice's contribution only. */
  lemma {:induction false} PlayingCountUpdate(s: seq<Voice>, i: nat, v: Voice)
    requires i < |s|
    ensures PlayingCount(s[i := v]) == PlayingCount(s) - Playing(s[i]) + Playing(v)
    decreases |s|
  {
    var t := s[i := v];
    var n := |s| - 1;
    assert t[..n] == if i < n then s[..n][i := v] else s[..n];
    if i < n {
      PlayingCountUpdate(s[..n], i, v);
    }
  }

  /** The zero-initialised pool and the pool after initializeVoices keep the invariant and hold no note. */
  lemma StartPoolsIdle()
    ensures PoolInvariant(ZeroPool) && PoolInvariant(InitialPool)
    ensures ActiveAgesBelowSentinel(ZeroPool) && ActiveAgesBelowSentinel(InitialPool)
    ensures PlayingCount(ZeroPool) == 0 && PlayingCount(InitialPool) == 0
    ensures forall i :: 0 <= i < NumVoices ==>
      InitialPool[i].pitchBend == BendCentre && InitialPool[i].bentNote == BendCentre &&
      InitialPool[i].bentNoteFreq == BendCentre && IsIdleSentinel(InitialPool[i])
  {
    ZeroCount(ZeroPool);
    ZeroCount(InitialPool);
  }

  lemma {:induction false} ZeroCount(s: seq<Voice>)
    requires forall i :: 0 <= i < |s| ==> !s[i].noteOn
    ensures PlayingCount(s) == 0
    decreases |s|
  {
    if |s| > 0 {
      ZeroCount(s[..|s| - 1]);
    }
  }

  /** With every playing age below the sentinel, noteOn always has a voice to write. */
  lemma AgesBelowSentinelAllocate(s: seq<Voice>, note: int)
    requires |s| == NumVoices && ActiveAgesBelowSentinel(s)
    ensures CanAllocate(s, note)
  {
    if PlayingCount(s) >= NumVoices {
      assert s[0].noteOn;
      assert s[0].noteAge < AgeSentinel;
    }
  }

  /** The precondition of stealing is exactly the out-of-bounds case: a full pool whose ages are all the sentinel. */
  lemma StealNeedsAgeBelowSentinel(s: seq<Voice>, note: int)
    requires |s| == NumVoices
    requires forall i :: 0 <= i < |s| ==> s[i].noteOn && s[i].noteAge == AgeSentinel && s[i].midiNote != note
    ensures !CanAllocate(s, note)
  {
  }

  /** Retrigger: a note that is already playing keeps its voice; only age and velocity change. */
  lemma NoteOnRetrigger(s: seq<Voice>, note: uint8, velocity: uint8, now: uint32, i: nat)
    requires |s| == NumVoices && i < |s|
    requires Sounds(s[i], note) && forall j :: 0 <= j < i ==> !Sounds(s[j], note)
    ensures CanAllocate(s, note) && ChosenVoice(s, note) == i
    ensures NoteOnState(s, note, velocity, now) == s[i := s[i].(noteAge := now, velocity := velocity)]
    ensures PlayingCount(NoteOnState(s, note, velocity, now)) == PlayingCount(s)
  {
    assert FindIndex(s, note) == i;
    var r := NoteOnState(s, note, velocity, now);
    PlayingCountUpdate(s, i, r[i]);
  }

  /** Free slot: a new note with an idle voice available takes the lowest idle voice and records its old note. */
  lemma NoteOnFreeSlot(s: seq<Voice>, note: uint8, velocity: uint8, now: uint32, i: nat)
    requires |s| == NumVoices && i < |s|
    requires forall j :: 0 <= j < |s| ==> !Sounds(s[j], note)
    requires !s[i].noteOn && forall j :: 0 <= j < i ==> s[j].noteOn
    ensures CanAllocate(s, note) && ChosenVoice(s, note) == i
    ensures NoteOnState(s, note, velocity, now) ==
      s[i := Assign(s[i].(prevNote := s[i].midiNote), note, velocity, now)]
    ensures PlayingCount(NoteOnState(s, note, velocity, now)) == PlayingCount(s) + 1
  {
    assert PlayingCount(s) < NumVoices;
    assert FirstIdle(s) == i;
    var r := NoteOnState(s, note, velocity, now);
    PlayingCountUpdate(s, i, r[i]);
  }

  /**
   * Stealing: a new note on a full pool evicts the voice with the strictly
   * smallest age (lowest index on ties), which must be below the sentinel;
   * the evicted note then sounds nowhere.
   */
  lemma NoteOnSteal(s: seq<Voice>, note: uint8, velocity: uint8, now: uint32, i: nat)
    requires |s| == NumVoices && i < |s|
    requires forall j :: 0 <= j < |s| ==> s[j].noteOn && s[j].midiNote != note
    requires s[i].noteAge < AgeSentinel
    requires forall j :: 0 <= j < |s| ==> s[i].noteAge <= s[j].noteAge
    requires forall j :: 0 <= j < i ==> s[i].noteAge < s[j].noteAge
    ensures CanAllocate(s, note) && ChosenVoice(s, note) == i
    ensures NoteOnState(s, note, velocity, now) ==
      s[i := Assign(s[i].(prevNote := s[i].midiNote), note, velocity, now)]
    ensures PlayingCount(NoteOnState(s, note, velocity, now)) == NumVoices
    ensures UniqueNotes(s) ==>
      forall j :: 0 <= j < |s| ==> !Sounds(NoteOnState(s, note, velocity, now)[j], s[i].midiNote)
  {
    var k := StealIndex(s);
    assert k != -1;
    assert k == i;
    var r := NoteOnState(s, note, velocity, now);
    PlayingCountUpdate(s, i, r[i]);
    assert PlayingCount(s) == NumVoices;
  }

  /**
   * After noteOn the chosen voice plays the note at the given velocity and
   * time, findVoice finds it, every other voice is unchanged, and the count of
   * playing voices grows by at most one.
   */
  lemma NoteOnAssigns(s: seq<Voice>, note: uint8, velocity: uint8, now: uint32)
    requires CanAllocate(s, note)
    ensures var i, r := ChosenVoice(s, note), NoteOnState(s, note, velocity, now);
      && |r| == |s|
      && r[i].midiNote == note && r[i].noteOn && r[i].velocity == velocity && r[i].noteAge == now
      && FindIndex(r, note) == i
      && (forall j :: 0 <= j < |s| && j != i ==> r[j] == s[j])
      && PlayingCount(s) <= PlayingCount(r) <= PlayingCount(s) + 1
  {
    var i, r := ChosenVoice(s, note), NoteOnState(s, note, velocity, now);
    PlayingCountUpdate(s, i, r[i]);
    var f := FindIndex(s, note);
    assert forall j :: 0 <= j < i ==> !Sounds(r[j], note) by {
      forall j | 0 <= j < i ensures !Sounds(r[j], note) {
        assert r[j] == s[j];
      }
    }
  }

  /** A second noteOn for the same note reuses the voice the first one chose. */
  lemma NoteOnTwiceReuses(s: seq<Voice>, note: uint8, v1: uint8, t1: uint32, v2: uint8, t2: uint32)
    requires CanAllocate(s, note)
    ensures CanAllocate(NoteOnState(s, note, v1, t1), note)
    ensures ChosenVoice(NoteOnState(s, note, v1, t1), note) == ChosenVoice(s, note)
    ensures PlayingCount(NoteOnState(NoteOnState(s, note, v1, t1), note, v2, t2)) ==
            PlayingCount(NoteOnState(s, note, v1, t1))
  {
    NoteOnAssigns(s, note, v1, t1);
    var r := NoteOnState(s, note, v1, t1);
    var i := ChosenVoice(s, note);
    NoteOnRetrigger(r, note, v2, t2, i);
  }

  /** noteOn keeps the pool invariant, and keeps playing ages below the sentinel when `now` is. */
  lemma NoteOnPreservesInvariant(s: seq<Voice>, note: uint8, velocity: uint8, now: uint32)
    requires CanAllocate(s, note)
    ensures UniqueNotes(s) ==> UniqueNotes(NoteOnState(s, note, velocity, now))
    ensures IdleIsSentinel(s) ==> IdleIsSentinel(NoteOnState(s, note, velocity, now))
    ensures ActiveAgesBelowSentinel(s) && now < AgeSentinel ==>
      ActiveAgesBelowSentinel(NoteOnState(s, note, velocity, now))
  {
    var i, r := ChosenVoice(s, note), NoteOnState(s, note, velocity, now);
    var f := FindIndex(s, note);
    assert forall j :: 0 <= j < |s| && j != i ==> r[j] == s[j];
    if UniqueNotes(s) {
      forall a, b | 0 <= a < b < |r| && r[a].noteOn && r[b].noteOn
        ensures r[a].midiNote != r[b].midiNote
      {
        if a == i {
          assert !Sounds(s[b], note);
        } else if b == i {
          assert !Sounds(s[a], note);
        }
      }
    }
  }

  /** noteOff of a playing note turns its voice into the idle sentinel and leaves the rest alone. */
  lemma NoteOffReleases(s: seq<Voice>, note: int, i: nat)
    requires i < |s| && Sounds(s[i], note) && forall j :: 0 <= j < i ==> !Sounds(s[j], note)
    ensures var r := NoteOffState(s, note);
      && |r| == |s|
      && r[i] == s[i].(noteOn := false, velocity := 0, midiNote := 0, noteAge := 0)
      && (forall j :: 0 <= j < |s| && j != i ==> r[j] == s[j])
      && PlayingCount(r) == PlayingCount(s) - 1
  {
    assert FindIndex(s, note) == i;
    PlayingCountUpdate(s, i, Release(s[i]));
  }

  /** noteOff of a note no voice plays changes nothing. */
  lemma NoteOffUnknown(s: seq<Voice>, note: int)
    requires forall j :: 0 <= j < |s| ==> !Sounds(s[j], note)
    ensures NoteOffState(s, note) == s
  {
  }

  /**
   * noteOff keeps the pool invariant and playing ages below the sentinel, and,
   * with notes unique, no voice plays the note afterwards.
   */
  lemma NoteOffPreservesInvariant(s: seq<Voice>, note: int)
    ensures UniqueNotes(s) ==> UniqueNotes(NoteOffState(s, note))
    ensures IdleIsSentinel(s) ==> IdleIsSentinel(NoteOffState(s, note))
    ensures ActiveAgesBelowSentinel(s) ==> ActiveAgesBelowSentinel(NoteOffState(s, note))
    ensures UniqueNotes(s) ==> forall j :: 0 <= j < |s| ==> !Sounds(NoteOffState(s, note)[j], note)
  {
    var i := FindIndex(s, note);
    if i != -1 {
      var r := NoteOffState(s, note);
      assert forall j :: 0 <= j < |s| && j != i ==> r[j] == s[j];
      if UniqueNotes(s) {
        assert forall j :: 0 <= j < |s| ==> !Sounds(r[j], note);
      }
    }
  }
}
