/**
 * The global voice array of the firmware and the routines that scan and
 * update it in place. Each routine is proved against the specification
 * functions of module Voices.
 */
module Pool {
  import opened Voices

  class VoicePool {
    /** The fixed array voices[NUM_VOICES]; it is never resized. */
    const voices: array<Voice>

    ghost predicate Valid() {
      voices.Length == NumVoices
    }

    /** The pool in zero-initialised static storage, before any routine runs. */
    constructor ()
      ensures Valid() && fresh(voices)
      ensures voices[..] == ZeroPool
    {
      voices := new Voice[NumVoices](_ => ZeroVoice);
    }

    /** initializeVoices: every voice idle, with the bend fields at their centre value. */
    method InitializeVoices()
      requires Valid()
      modifies voices
      ensures voices[..] == InitialPool
    {
      for i := 0 to NumVoices
        invariant forall j :: 0 <= j < i ==> voices[j] == InitialVoice
      {
        voices[i] := InitialVoice;
      }
    }

    /**
     * findOldestVoice: the idle voice with the strictly smallest age (lowest
     * index on ties), counting only ages below the sentinel; 0 when there is
     * no such voice.
     */
    method FindOldestVoice() returns (r: int)
      requires Valid()
      ensures 0 <= r < NumVoices
      ensures (exists i :: 0 <= i < NumVoices && !voices[i].noteOn && voices[i].noteAge < AgeSentinel) ==>
        && !voices[r].noteOn
        && voices[r].noteAge < AgeSentinel
        && (forall j :: 0 <= j < NumVoices && !voices[j].noteOn ==> voices[r].noteAge <= voices[j].noteAge)
        && (forall j :: 0 <= j < r && !voices[j].noteOn ==> voices[r].noteAge < voices[j].noteAge)
      ensures (forall i :: 0 <= i < NumVoices && !voices[i].noteOn ==> voices[i].noteAge >= AgeSentinel) ==>
        r == 0
      ensures IdleIsSentinel(voices[..]) && FirstIdle(voices[..]) != -1 ==> r == FirstIdle(voices[..])
    {
      var oldestVoice := 0;
      var oldestAge: int := AgeSentinel;
      for i := 0 to NumVoices
        invariant 0 <= oldestVoice < NumVoices
        invariant (forall j :: 0 <= j < i && !voices[j].noteOn ==> voices[j].noteAge >= AgeSentinel) ==>
          oldestVoice == 0 && oldestAge == AgeSentinel
        invariant (exists j :: 0 <= j < i && !voices[j].noteOn && voices[j].noteAge < AgeSentinel) ==>
          && oldestVoice < i
          && !voices[oldestVoice].noteOn
          && oldestAge == voices[oldestVoice].noteAge < AgeSentinel
        invariant forall j :: 0 <= j < i && !voices[j].noteOn ==> oldestAge <= voices[j].noteAge
        invariant forall j :: 0 <= j < oldestVoice && !voices[j].noteOn ==> oldestAge < voices[j].noteAge
      {
        if !voices[i].noteOn && voices[i].noteAge < oldestAge {
          oldestVoice := i;
          oldestAge := voices[i].noteAge;
        }
      }
      r := oldestVoice;
    }

    /** findVoice: the lowest index of a voice playing `note`, or -1 if none does. */
    method FindVoice(note: uint8) returns (r: int)
      requires Valid()
      ensures -1 <= r < NumVoices
      ensures r == -1 <==> forall i :: 0 <= i < NumVoices ==> !Sounds(voices[i], note)
      ensures r != -1 ==> Sounds(voices[r], note) && forall j :: 0 <= j < r ==> !Sounds(voices[j], note)
    {
      r := -1;
      for i := 0 to NumVoices
        invariant forall j :: 0 <= j < i ==> !Sounds(voices[j], note)
      {
        if voices[i].noteOn && voices[i].midiNote == note {
          r := i;
          break;
        }
      }
    }

    /** The counting loop of noteOn: how many voices are playing. */
    method CountPlayingVoices() returns (n: int)
      requires Valid()
      ensures n == PlayingCount(voices[..])
    {
      ghost var s := voices[..];
      n := 0;
      for i := 0 to NumVoices
        invariant n == PlayingCount(s[..i])
      {
        assert s[..i + 1][..i] == s[..i];
        if voices[i].noteOn {
          n := n + 1;
        }
      }
      assert s[..NumVoices] == s;
    }

    /**
     * The stealing loop of noteOn: the voice with the strictly smallest age
     * below the sentinel, lowest index on ties, or -1.
     */
    method StealScan() returns (r: int)
      requires Valid()
      ensures r == StealIndex(voices[..])
    {
      ghost var s := voices[..];
      var oldestAge: int := AgeSentinel;
      r := -1;
      for i := 0 to NumVoices
        invariant r == StealIndex(s[..i])
        invariant oldestAge == if r == -1 then AgeSentinel else s[r].noteAge
      {
        assert s[..i + 1][..i] == s[..i];
        if voices[i].noteAge < oldestAge {
          oldestAge := voices[i].noteAge;
          r := i;
        }
      }
      assert s[..NumVoices] == s;
    }

    /** The free-slot loop of noteOn: the lowest idle voice, or -1. */
    method FirstFreeVoice() returns (r: int)
      requires Valid()
      ensures r == FirstIdle(voices[..])
    {
      r := -1;
      for i := 0 to NumVoices
        invariant forall j :: 0 <= j < i ==> voices[j].noteOn
      {
        if !voices[i].noteOn {
          r := i;
          break;
        }
      }
    }

    /**
     * noteOn: retrigger the voice already playing `note`, or else take the
     * lowest idle voice, or else (all voices playing) steal the voice with
     * the smallest age; a newly allocated voice records its old note in
     * prevNote. `now` stands for millis().
     */
    method NoteOn(note: uint8, velocity: uint8, now: uint32)
      requires Valid() && CanAllocate(voices[..], note)
      modifies voices
      ensures voices[..] == NoteOnState(old(voices[..]), note, velocity, now)
    {
      ghost var s := voices[..];
      var voice := FindVoice(note);
      assert voice == FindIndex(s, note);
      if voice == -1 {
        var numPlayingVoices := CountPlayingVoices();
        if numPlayingVoices >= NumVoices {
          voice := StealScan();
        } else {
          voice := FirstFreeVoice();
        }
        voices[voice] := voices[voice].(prevNote := voices[voice].midiNote);
      }
      voices[voice] := Assign(voices[voice], note, velocity, now);
    }

    /** noteOff: the voice playing `note`, if any, becomes the idle sentinel. */
    method NoteOff(note: uint8)
      requires Valid()
      modifies voices
      ensures voices[..] == NoteOffState(old(voices[..]), note)
    {
      ghost var s := voices[..];
      var voice := FindVoice(note);
      assert voice == FindIndex(s, note);
      if voice != -1 {
        voices[voice] := voices[voice].(noteOn := false, velocity := 0, midiNote := 0, noteAge := 0);
      }
    }
  }
}
