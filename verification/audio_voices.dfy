/** The voice handling of the listening app's audio generator: the Japanese voices Amazon
    Polly reports are split into a male and a female list (each kept at its default when the
    answer has none of that gender), an announcer is chosen, each voice's neural-engine
    support is recorded, and dialogue lines take voices round-robin, alternating male and
    female. Polly's answer is an input (None where the call raises); speech synthesis and
    ffmpeg are left out. */
module AudioVoices {
  import opened Base

  datatype Gender = Male | Female

  function Other(g: Gender): Gender
  {
    if g == Male then Female else Male
  }

  /** One entry of `describe_voices`: its 'Id', its 'Gender' (None where the key is missing,
      which raises) and its 'SupportedEngines' (None where the key is missing). */
  datatype VoiceInfo = VoiceInfo(id: string, gender: Option<string>, engines: Option<seq<string>>)

  /** `'SupportedEngines' in voice and 'neural' in voice['SupportedEngines']`. */
  predicate SupportsNeural(v: VoiceInfo)
  {
    v.engines.Some? && "neural" in v.engines.value
  }

  predicate IsMaleVoice(v: VoiceInfo)
  {
    v.gender == Some("Male")
  }

  /** Every entry has a 'Gender', so the loop over the answer does not raise. */
  predicate Described(vs: seq<VoiceInfo>)
  {
    forall i | 0 <= i < |vs| :: vs[i].gender.Some?
  }

  function Ids(vs: seq<VoiceInfo>): seq<string>
  {
    if vs == [] then [] else Ids(vs[..|vs| - 1]) + [vs[|vs| - 1].id]
  }

  /** The ids appended to `male_voices`, in order. */
  function MaleIds(vs: seq<VoiceInfo>): seq<string>
  {
    if vs == [] then []
    else MaleIds(vs[..|vs| - 1]) + (if IsMaleVoice(vs[|vs| - 1]) then [vs[|vs| - 1].id] else [])
  }

  /** The ids appended to `female_voices`: every voice whose gender is not 'Male'. */
  function FemaleIds(vs: seq<VoiceInfo>): seq<string>
  {
    if vs == [] then []
    else FemaleIds(vs[..|vs| - 1]) + (if IsMaleVoice(vs[|vs| - 1]) then [] else [vs[|vs| - 1].id])
  }

  /** `neural_supported` after the loop, starting from `base`: a later entry with the same id
      overwrites an earlier one. */
  function NeuralOf(base: map<string, bool>, vs: seq<VoiceInfo>): map<string, bool>
  {
    if vs == [] then base
    else NeuralOf(base, vs[..|vs| - 1])[vs[|vs| - 1].id := SupportsNeural(vs[|vs| - 1])]
  }

  /** The generator's `voices` dictionary and `neural_supported` map. */
  datatype VoiceConfig = VoiceConfig(
    male: seq<string>,
    female: seq<string>,
    announcer: string,
    neural: map<string, bool>)

  /** The configuration `__init__` sets before asking Polly. */
  const DEFAULTS := VoiceConfig(["Takumi"], ["Mizuki"], "Mizuki", map[])

  /** `_configure_voices` from configuration `c`. When the call raises or an entry lacks
      'Gender', the voices stay and every default voice is marked as not neural. Otherwise
      each list is replaced by its new list when that is non-empty, the announcer is the
      first new female voice if there is one and else the first male voice, and each
      voice's neural support is recorded. */
  function Configure(c: VoiceConfig, answer: Option<seq<VoiceInfo>>): (r: VoiceConfig)
    requires c.male != [] && c.female != []
    ensures r.male != [] && r.female != []
  {
    if answer.None? || !Described(answer.value) then
      c.(neural := map["Takumi" := false, "Mizuki" := false])
    else
      var vs := answer.value;
      var male := if MaleIds(vs) != [] then MaleIds(vs) else c.male;
      var female := if FemaleIds(vs) != [] then FemaleIds(vs) else c.female;
      VoiceConfig(male, female, if FemaleIds(vs) != [] then female[0] else male[0], NeuralOf(c.neural, vs))
  }

  /** `'neural' if self.neural_supported.get(voice_id, False) else 'standard'`. */
  function Engine(neural: map<string, bool>, voiceId: string): string
  {
    if voiceId in neural && neural[voiceId] then "neural" else "standard"
  }

  // ---------------------------------------------------------------------------------------
  // What the configuration promises

  /** Every voice lands in exactly one list: the two lists together are the answer's ids. */
  lemma {:induction false} PartitionIds(vs: seq<VoiceInfo>)
    ensures multiset(MaleIds(vs)) + multiset(FemaleIds(vs)) == multiset(Ids(vs))
    ensures |MaleIds(vs)| + |FemaleIds(vs)| == |vs|
  {
    if vs != [] {
      PartitionIds(vs[..|vs| - 1]);
    }
  }

  /** A voice goes to the male list exactly when its gender is 'Male'. */
  lemma {:induction false} MaleListMembers(vs: seq<VoiceInfo>, i: nat)
    requires i < |vs|
    ensures IsMaleVoice(vs[i]) ==> vs[i].id in MaleIds(vs)
    ensures !IsMaleVoice(vs[i]) ==> vs[i].id in FemaleIds(vs)
  {
    var last := |vs| - 1;
    if i < last {
      MaleListMembers(vs[..last], i);
    }
  }

  /** The neural flag of a voice is the support its last entry declares. */
  lemma {:induction false} NeuralLast(base: map<string, bool>, vs: seq<VoiceInfo>, i: nat)
    requires i < |vs|
    requires forall j | i < j < |vs| :: vs[j].id != vs[i].id
    ensures vs[i].id in NeuralOf(base, vs) && NeuralOf(base, vs)[vs[i].id] == SupportsNeural(vs[i])
  {
    var last := |vs| - 1;
    if i < last {
      NeuralLast(base, vs[..last], i);
    }
  }

  /** After a successful configuration, a voice is synthesised with the neural engine
      exactly when its last entry in the answer lists 'neural'. */
  lemma ConfiguredEngine(c: VoiceConfig, vs: seq<VoiceInfo>, i: nat)
    requires c.male != [] && c.female != [] && Described(vs)
    requires i < |vs| && forall j | i < j < |vs| :: vs[j].id != vs[i].id
    ensures Engine(Configure(c, Some(vs)).neural, vs[i].id) == (if SupportsNeural(vs[i]) then "neural" else "standard")
  {
    NeuralLast(c.neural, vs, i);
  }

  /** After a failed configuration both default voices use the standard engine. */
  lemma FailedConfigurationIsStandard(c: VoiceConfig, answer: Option<seq<VoiceInfo>>)
    requires c.male != [] && c.female != []
    requires answer.None? || !Described(answer.value)
    ensures Engine(Configure(c, answer).neural, "Takumi") == "standard"
    ensures Engine(Configure(c, answer).neural, "Mizuki") == "standard"
    ensures Configure(c, answer).male == c.male && Configure(c, answer).female == c.female
  {
  }

  /** The announcer is the first female voice reported, or else the first male voice. */
  lemma Announcer(c: VoiceConfig, vs: seq<VoiceInfo>)
    requires c.male != [] && c.female != [] && Described(vs)
    ensures var r := Configure(c, Some(vs));
      && (FemaleIds(vs) != [] ==> r.announcer == FemaleIds(vs)[0] && r.female == FemaleIds(vs))
      && (FemaleIds(vs) == [] ==> r.announcer == r.male[0] && r.female == c.female)
      && r.male == (if MaleIds(vs) != [] then MaleIds(vs) else c.male)
  {
  }

  // ---------------------------------------------------------------------------------------
  // Round-robin voices for a dialogue

  /** The voice of dialogue line `i` after the indices are reset: even lines take the male
      rotation, odd lines the female one, each advancing one voice per use. */
  function VoiceForLine(male: seq<string>, female: seq<string>, i: nat): string
    requires male != [] && female != []
  {
    if i % 2 == 0 then male[(i / 2) % |male|] else female[(i / 2) % |female|]
  }

  /** The male rotation repeats after as many male lines as there are male voices, and the
      female one likewise. */
  lemma RotationCycles(male: seq<string>, female: seq<string>, i: nat)
    requires male != [] && female != []
    ensures i % 2 == 0 ==> VoiceForLine(male, female, i + 2 * |male|) == VoiceForLine(male, female, i)
    ensures i % 2 == 1 ==> VoiceForLine(male, female, i + 2 * |female|) == VoiceForLine(male, female, i)
  {
    if i % 2 == 0 {
      assert (i + 2 * |male|) / 2 == i / 2 + |male|;
      ModAddMultiple(i / 2, |male|);
    } else {
      assert (i + 2 * |female|) / 2 == i / 2 + |female|;
      ModAddMultiple(i / 2, |female|);
    }
  }

  /** The generator's voice state. The Polly client and the Gemini client are left out. */
  class AudioGenerator {
    var male: seq<string>
    var female: seq<string>
    var announcer: string
    var neural: map<string, bool>
    var maleIndex: nat
    var femaleIndex: nat
    var lastGender: Option<Gender>

    function Config(): VoiceConfig
      reads this
    {
      VoiceConfig(male, female, announcer, neural)
    }

    function Voices(g: Gender): seq<string>
      reads this
    {
      if g == Male then male else female
    }

    function Index(g: Gender): nat
      reads this
    {
      if g == Male then maleIndex else femaleIndex
    }

    /** Both lists are non-empty and each index points into its list. */
    ghost predicate Valid()
      reads this
    {
      male != [] && female != [] && maleIndex < |male| && femaleIndex < |female|
    }

    /** `__init__`: the defaults, then `_configure_voices` on Polly's answer. */
    constructor (answer: Option<seq<VoiceInfo>>)
      ensures Valid()
      ensures Config() == Configure(DEFAULTS, answer)
      ensures maleIndex == 0 && femaleIndex == 0 && lastGender == None
    {
      male, female, announcer, neural := DEFAULTS.male, DEFAULTS.female, DEFAULTS.announcer, DEFAULTS.neural;
      maleIndex, femaleIndex, lastGender := 0, 0, None;
      new;
      ConfigureVoices(answer);
    }

    /** `_configure_voices`: one pass over the answer, appending each id to its gender's list
        and recording its neural support; the lists are installed after the loop. */
    method ConfigureVoices(answer: Option<seq<VoiceInfo>>)
      requires male != [] && female != []
      modifies this
      ensures Config() == Configure(old(Config()), answer)
      ensures maleIndex == old(maleIndex) && femaleIndex == old(femaleIndex) && lastGender == old(lastGender)
    {
      if answer.None? {
        neural := map["Takumi" := false, "Mizuki" := false];
        return;
      }
      var vs := answer.value;
      var maleVoices: seq<string> := [];
      var femaleVoices: seq<string> := [];
      var flags := neural;
      var i := 0;
      while i < |vs|
        invariant i <= |vs| && Described(vs[..i])
        invariant maleVoices == MaleIds(vs[..i]) && femaleVoices == FemaleIds(vs[..i])
        invariant flags == NeuralOf(neural, vs[..i])
      {
        assert vs[..i + 1][..i] == vs[..i];
        if vs[i].gender.None? {
          assert !Described(vs);
          neural := map["Takumi" := false, "Mizuki" := false];
          return;
        }
        if vs[i].gender.value == "Male" {
          maleVoices := maleVoices + [vs[i].id];
        } else {
          femaleVoices := femaleVoices + [vs[i].id];
        }
        flags := flags[vs[i].id := SupportsNeural(vs[i])];
        i := i + 1;
      }
      assert vs[..i] == vs;
      neural := flags;
      if maleVoices != [] {
        male := maleVoices;
      }
      if femaleVoices != [] {
        female := femaleVoices;
      }
      announcer := if femaleVoices != [] then female[0] else male[0];
    }

    /** `get_next_voice`: the current voice of that gender; its index moves on by one,
        wrapping at the end of the list, and the other gender's index is untouched. */
    method GetNextVoice(g: Gender) returns (voice: string)
      requires Valid()
      modifies this
      ensures Valid() && Config() == old(Config())
      ensures voice == Voices(g)[old(Index(g))]
      ensures Index(g) == (old(Index(g)) + 1) % |Voices(g)|
      ensures Index(Other(g)) == old(Index(Other(g)))
      ensures lastGender == Some(g)
    {
      if g == Male {
        voice := male[maleIndex];
        maleIndex := (maleIndex + 1) % |male|;
      } else {
        voice := female[femaleIndex];
        femaleIndex := (femaleIndex + 1) % |female|;
      }
      lastGender := Some(g);
    }

    /** The voices `generate_conversation_audio` picks for `n` cleaned dialogue lines: the
        indices are reset, then line i asks for a female voice when i is odd and a male one
        when it is even. */
    method AssignVoices(n: nat) returns (picked: seq<string>)
      requires Valid()
      modifies this
      ensures Valid() && Config() == old(Config())
      ensures |picked| == n
      ensures forall i | 0 <= i < n :: picked[i] == VoiceForLine(male, female, i)
      ensures maleIndex == ((n + 1) / 2) % |male| && femaleIndex == (n / 2) % |female|
      ensures lastGender == (if n == 0 then None else if (n - 1) % 2 == 1 then Some(Female) else Some(Male))
    {
      maleIndex, femaleIndex := 0, 0;
      lastGender := None;
      picked := [];
      for i := 0 to n
        invariant Valid() && Config() == old(Config())
        invariant |picked| == i
        invariant forall k | 0 <= k < i :: picked[k] == VoiceForLine(male, female, k)
        invariant maleIndex == ((i + 1) / 2) % |male| && femaleIndex == (i / 2) % |female|
        invariant lastGender == (if i == 0 then None else if (i - 1) % 2 == 1 then Some(Female) else Some(Male))
      {
        var gender := if i % 2 == 1 then Female else Male;
        ModSucc(i / 2, |Voices(gender)|);
        var voice := GetNextVoice(gender);
        picked := picked + [voice];
      }
    }
  }
}
