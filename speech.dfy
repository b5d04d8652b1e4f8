/**
 * The text-to-speech hook: the language-name lookup, the voice-priority
 * rule, the utterance a `speak` call prepares, and the `isPlaying` /
 * `isPaused` flags the playback callbacks and controls update.
 */
module Speech {
  import opened Wrappers
  import opened JsString
  import opened Seqs

  /** A synthesis voice as the browser lists it. */
  datatype Voice = Voice(name: string, lang: string)

  /** The language hint `speak` uses when none is passed. */
  const DefaultLangHint: string := "en-IN"

  /** Display names of languages mapped to their BCP 47 tags. */
  const LangMap: map<string, string> := map[
    "English" := "en-IN",
    "Hindi" := "hi-IN",
    "Telugu" := "te-IN",
    "Malayalam" := "ml-IN",
    "Punjabi" := "pa-IN"
  ]

  /** The hint as passed; an omitted hint takes the default. */
  function HintOrDefault(langHint: Option<string>): string {
    langHint.GetOr(DefaultLangHint)
  }

  /** A known language name becomes its tag; anything else passes through unchanged. */
  function TargetLang(hint: string): (r: string)
    ensures hint in LangMap ==> r == LangMap[hint]
    ensures hint !in LangMap ==> r == hint
  {
    OrElse(if hint in LangMap then LangMap[hint] else "", hint)
  }

  /** The five names map to their tags, and the default hint is already a tag. */
  lemma KnownLanguages()
    ensures TargetLang("English") == "en-IN" && TargetLang("Hindi") == "hi-IN"
    ensures TargetLang("Telugu") == "te-IN" && TargetLang("Malayalam") == "ml-IN"
    ensures TargetLang("Punjabi") == "pa-IN"
    ensures TargetLang(HintOrDefault(None)) == "en-IN"
  {
    assert "en-IN" !in LangMap by {
      assert LangMap.Keys == {"English", "Hindi", "Telugu", "Malayalam", "Punjabi"};
    }
  }

  /** The primary language subtag: the part of the tag before its first hyphen. */
  function PrimarySubtag(tag: string): (r: string)
    ensures StartsWith(tag, r) && '-' !in r
    ensures '-' !in tag ==> r == tag
    ensures forall k :: 0 <= k < |tag| && tag[k] == '-' ==> |r| <= k
    ensures |r| < |tag| ==> tag[|r|] == '-'
  {
    SplitHead(tag, '-');
    Split(tag, '-')[0]
  }

  /** A tag `language-region` has `language` as its primary subtag: "hi-IN" gives "hi". */
  lemma PrimarySubtagOfRegionalTag(language: string, region: string)
    requires '-' !in language
    ensures PrimarySubtag(language + "-" + region) == language
  {
    var tag := language + "-" + region;
    var r := PrimarySubtag(tag);
    assert tag[|language|] == '-';
    assert |r| == |language|;
    assert tag[..|language|] == language;
  }

  predicate ExactLang(v: Voice, target: string) {
    v.lang == target
  }

  predicate SameLanguage(v: Voice, target: string) {
    StartsWith(v.lang, PrimarySubtag(target))
  }

  /** A voice whose name mentions Google or Natural is preferred. */
  predicate Premium(v: Voice) {
    Contains(v.name, "Google") || Contains(v.name, "Natural")
  }

  function ExactUnder(target: string): Voice -> bool {
    v => ExactLang(v, target)
  }

  function SameLanguageUnder(target: string): Voice -> bool {
    v => SameLanguage(v, target)
  }

  function PremiumVoice(): Voice -> bool {
    v => Premium(v)
  }

  /**
   * The voice priority: the first voice with the exact tag, else the first
   * with the same primary subtag, else the first premium one, else the first
   * voice of all.
   */
  function SelectVoice(voices: seq<Voice>, target: string): (r: Option<Voice>)
    ensures r.None? <==> voices == []
    ensures r.Some? ==> r.value in voices
  {
    match FirstIndex(voices, ExactUnder(target))
    case Some(i) => Some(voices[i])
    case None =>
      match FirstIndex(voices, SameLanguageUnder(target))
      case Some(i) => Some(voices[i])
      case None =>
        match FirstIndex(voices, PremiumVoice())
        case Some(i) => Some(voices[i])
        case None => if voices == [] then None else Some(voices[0])
  }

  /** A voice whose tag equals the target wins, and the first such one. */
  lemma ExactMatchFirst(voices: seq<Voice>, target: string, i: nat)
    requires i < |voices| && voices[i].lang == target
    requires forall j :: 0 <= j < i ==> voices[j].lang != target
    ensures SelectVoice(voices, target) == Some(voices[i])
  {
    FirstIndexAt(voices, ExactUnder(target), i);
  }

  /** Without an exact match, the first voice of the same primary language wins. */
  lemma LanguageMatchSecond(voices: seq<Voice>, target: string, i: nat)
    requires forall j :: 0 <= j < |voices| ==> voices[j].lang != target
    requires i < |voices| && StartsWith(voices[i].lang, PrimarySubtag(target))
    requires forall j :: 0 <= j < i ==> !StartsWith(voices[j].lang, PrimarySubtag(target))
    ensures SelectVoice(voices, target) == Some(voices[i])
  {
    assert FirstIndex(voices, ExactUnder(target)).None?;
    FirstIndexAt(voices, SameLanguageUnder(target), i);
  }

  /** Without any language match, the first voice named "Google" or "Natural" wins. */
  lemma PremiumThird(voices: seq<Voice>, target: string, i: nat)
    requires forall j :: 0 <= j < |voices| ==> voices[j].lang != target
    requires forall j :: 0 <= j < |voices| ==> !StartsWith(voices[j].lang, PrimarySubtag(target))
    requires i < |voices| && Premium(voices[i])
    requires forall j :: 0 <= j < i ==> !Premium(voices[j])
    ensures SelectVoice(voices, target) == Some(voices[i])
  {
    assert FirstIndex(voices, ExactUnder(target)).None?;
    assert FirstIndex(voices, SameLanguageUnder(target)).None?;
    FirstIndexAt(voices, PremiumVoice(), i);
  }

  /** With nothing else to go on, the first voice is taken. */
  lemma FirstVoiceLast(voices: seq<Voice>, target: string)
    requires voices != []
    requires forall j :: 0 <= j < |voices| ==> voices[j].lang != target
    requires forall j :: 0 <= j < |voices| ==> !StartsWith(voices[j].lang, PrimarySubtag(target))
    requires forall j :: 0 <= j < |voices| ==> !Premium(voices[j])
    ensures SelectVoice(voices, target) == Some(voices[0])
  {
    assert FirstIndex(voices, ExactUnder(target)).None?;
    assert FirstIndex(voices, SameLanguageUnder(target)).None?;
    assert FirstIndex(voices, PremiumVoice()).None?;
  }

  /** The utterance `speak` prepares. */
  class Utterance {
    const text: string
    var voice: Option<Voice>
    var lang: string

    /** A fresh utterance of `text`: no voice and an empty language. */
    constructor(text: string)
      ensures this.text == text && voice.None? && lang == ""
    {
      this.text := text;
      voice := None;
      lang := "";
    }

    /** `loadVoices`: take the chosen voice and its language; with no voice, change nothing. */
    method LoadVoices(voices: seq<Voice>, target: string)
      modifies this
      ensures SelectVoice(voices, target).Some? ==>
        voice == SelectVoice(voices, target) && lang == voice.value.lang
      ensures SelectVoice(voices, target).None? ==> voice == old(voice) && lang == old(lang)
    {
      var chosen := SelectVoice(voices, target);
      if chosen.Some? {
        voice := chosen;
        lang := chosen.value.lang;
      }
    }
  }

  /** The playback flags, as one value. */
  datatype Flags = Flags(playing: bool, paused: bool)

  const Idle: Flags := Flags(false, false)

  /** What moves the flags: the utterance's callbacks and the three controls. */
  datatype Event = Start | End | Error | Pause | Resume | Stop

  /** The controls act only when the browser offers speech synthesis; the callbacks always act. */
  function Next(f: Flags, e: Event, available: bool): Flags {
    match e
    case Start => Flags(true, false)
    case End => Idle
    case Error => Idle
    case Pause => if available then f.(paused := true) else f
    case Resume => if available then f.(paused := false) else f
    case Stop => if available then Idle else f
  }

  /** The flags after a sequence of events. */
  function Run(f: Flags, es: seq<Event>, available: bool): Flags
    decreases |es|
  {
    if es == [] then f else Next(Run(f, es[..|es| - 1], available), es[|es| - 1], available)
  }

  predicate SetsPlaying(e: Event) {
    e.Start? || e.End? || e.Error? || e.Stop?
  }

  function SetsPlayingPred(): Event -> bool {
    e => SetsPlaying(e)
  }

  /**
   * With synthesis available, speech is playing exactly when the last event
   * that touches `isPlaying` was `onstart`, and paused exactly when the last
   * event was `pause`: every event touches `isPaused`.
   */
  lemma {:induction false} RunFlags(f: Flags, es: seq<Event>)
    ensures Run(f, es, true).playing <==>
      match LastIndex(es, SetsPlayingPred())
      case Some(j) => es[j] == Start
      case None => f.playing
    ensures Run(f, es, true).paused <==> if es == [] then f.paused else es[|es| - 1] == Pause
    decreases |es|
  {
    if es != [] {
      var init, e := es[..|es| - 1], es[|es| - 1];
      RunFlags(f, init);
      assert es == init + [e];
      LastIndexSnoc(init, e, SetsPlayingPred());
    }
  }

  /** `pause` and `resume` never touch `isPlaying`. */
  lemma {:induction false} PauseResumeKeepPlaying(f: Flags, es: seq<Event>, available: bool)
    requires forall k :: 0 <= k < |es| ==> es[k] == Pause || es[k] == Resume
    ensures Run(f, es, available).playing == f.playing
    decreases |es|
  {
    if es != [] {
      PauseResumeKeepPlaying(f, es[..|es| - 1], available);
    }
  }

  /** After `stop`, `onend` or `onerror` both flags are down. */
  lemma EndsIdle(f: Flags, es: seq<Event>)
    requires es != [] && (es[|es| - 1] == End || es[|es| - 1] == Error || es[|es| - 1] == Stop)
    ensures Run(f, es, true) == Idle
  {
  }

  /** The hook's state: the two flags and whether the browser offers speech synthesis. */
  class SpeechHook {
    var isPlaying: bool
    var isPaused: bool
    const available: bool

    function State(): Flags
      reads this
    {
      Flags(isPlaying, isPaused)
    }

    /** Both flags start false. */
    constructor(available: bool)
      ensures State() == Idle && this.available == available
    {
      isPlaying := false;
      isPaused := false;
      this.available := available;
    }

    /** `onstart`. */
    method OnStart()
      modifies this
      ensures isPlaying && !isPaused
      ensures State() == Next(old(State()), Start, available)
    {
      isPlaying := true;
      isPaused := false;
    }

    /** `onend`. */
    method OnEnd()
      modifies this
      ensures !isPlaying && !isPaused
      ensures State() == Next(old(State()), End, available)
    {
      isPlaying := false;
      isPaused := false;
    }

    /** `onerror`. */
    method OnError()
      modifies this
      ensures !isPlaying && !isPaused
      ensures State() == Next(old(State()), Error, available)
    {
      isPlaying := false;
      isPaused := false;
    }

    /** `pause`: raises `isPaused` when synthesis is available; `isPlaying` is left alone. */
    method Pause()
      modifies this
      ensures isPlaying == old(isPlaying)
      ensures isPaused == (available || old(isPaused))
      ensures State() == Next(old(State()), Event.Pause, available)
    {
      if available {
        isPaused := true;
      }
    }

    /** `resume`: lowers `isPaused` when synthesis is available; `isPlaying` is left alone. */
    method Resume()
      modifies this
      ensures isPlaying == old(isPlaying)
      ensures isPaused == (!available && old(isPaused))
      ensures State() == Next(old(State()), Event.Resume, available)
    {
      if available {
        isPaused := false;
      }
    }

    /** `stop`: lowers both flags when synthesis is available. */
    method Stop()
      modifies this
      ensures available ==> !isPlaying && !isPaused
      ensures !available ==> State() == old(State())
      ensures State() == Next(old(State()), Event.Stop, available)
    {
      if available {
        isPlaying := false;
        isPaused := false;
      }
    }

    /**
     * `speak`: nothing without synthesis; otherwise a new utterance of the
     * text whose voice and language follow the priority rule for the mapped
     * hint when voices are already listed. The flags wait for `onstart`.
     */
    method Speak(text: string, langHint: Option<string>, voices: seq<Voice>) returns (u: Option<Utterance>)
      ensures u.Some? <==> available
      ensures u.Some? ==> fresh(u.value) && u.value.text == text
      ensures u.Some? ==>
        var chosen := SelectVoice(voices, TargetLang(HintOrDefault(langHint)));
        && u.value.voice == chosen
        && u.value.lang == (if chosen.Some? then chosen.value.lang else "")
    {
      if !available {
        return None;
      }
      var utterance := new Utterance(text);
      if voices != [] {
        utterance.LoadVoices(voices, TargetLang(HintOrDefault(langHint)));
      }
      return Some(utterance);
    }
  }
}
