/**
 * The popup's session: the module-level `transcript`, `videoTitle` and
 * `videoUrl`, the copy button's enabled flag, the message box, the transcript
 * area's state and the language drop-down, with the handlers that update them
 * (src/popup.js). A fetch is two events: issuing it (the first half of
 * `fetchAndDisplayTranscript`) and its completion. Issuing a fetch hides the
 * drop-down and only a reply with data shows it again, so at most one fetch
 * is ever in flight.
 */
module TranscriptSession {
  import opened Wrappers
  import opened VideoLocator

  /** One entry of the service's `languages` list. */
  datatype Language = Language(code: string, name: string)

  /** The JSON body of a successful reply. */
  datatype Response = Response(transcript: string, title: string, languages: seq<Language>, transcriptLanguageCode: string)

  /** How `fetchTranscript` ends. */
  datatype FetchOutcome =
    | Fetched(data: Response)   // an ok reply whose body parsed to an object
    | NullBody                  // an ok reply whose body parsed to `null`
    | NotOk                     // a reply with a non-ok status
    | Thrown(message: string)   // `fetch` or `json()` threw an error with this message

  /** The body `{url, lang}` POSTed to the transcript service. */
  datatype FetchRequest = FetchRequest(url: string, lang: string)

  /** An `<option>` of the language drop-down. */
  datatype LangOption = LangOption(value: string, text: string, selected: bool)

  /** What the transcript area shows. */
  datatype Output = Blank | Loading | FetchFailed | ShowingTranscript

  const NoVideoMessage := "No YouTube video found on this page."
  const NotOkMessage := "Failed to fetch transcript"
  const ErrorPrefix := "Error: "
  const Placeholder := LangOption("", "Available languages", false)

  /** The options the `forEach` appends, one per language, in order. */
  function LanguageOptions(languages: seq<Language>, currentCode: string): (opts: seq<LangOption>)
    ensures |opts| == |languages|
    ensures forall k :: 0 <= k < |languages| ==>
      && opts[k].value == languages[k].code
      && opts[k].text == languages[k].name
      && (opts[k].selected <==> languages[k].code == currentCode)
  {
    if languages == [] then []
    else
      var last := languages[|languages| - 1];
      LanguageOptions(languages[..|languages| - 1], currentCode) + [LangOption(last.code, last.name, last.code == currentCode)]
  }

  /**
   * The drop-down `handleLanguageSelection` leaves behind: nothing when there
   * are no languages, otherwise the placeholder followed by one option per
   * language.
   */
  function OptionList(languages: seq<Language>, currentCode: string): (opts: seq<LangOption>)
    ensures languages == [] <==> opts == []
    ensures languages != [] ==> |opts| == |languages| + 1 && opts[0] == Placeholder
    ensures forall k :: 0 <= k < |languages| ==>
      && opts[k + 1].value == languages[k].code
      && opts[k + 1].text == languages[k].name
      && (opts[k + 1].selected <==> languages[k].code == currentCode)
  {
    if languages == [] then [] else [Placeholder] + LanguageOptions(languages, currentCode)
  }

  /** Some option carries this value. */
  predicate HasValue(opts: seq<LangOption>, value: string)
  {
    exists k :: 0 <= k < |opts| && opts[k].value == value
  }

  /** Some language carries this code. */
  predicate HasLanguage(languages: seq<Language>, code: string)
  {
    exists j :: 0 <= j < |languages| && languages[j].code == code
  }

  /**
   * The values the drop-down can report are exactly the placeholder's empty
   * value and the language codes, and none at all when there are no languages.
   */
  lemma OfferedValues(languages: seq<Language>, currentCode: string, value: string)
    ensures HasValue(OptionList(languages, currentCode), value) <==>
      languages != [] && (value == "" || HasLanguage(languages, value))
  {
    var opts := OptionList(languages, currentCode);
    if languages != [] {
      if value == "" {
        assert opts[0].value == value;
      }
      if j :| 0 <= j < |languages| && languages[j].code == value {
        assert opts[j + 1].value == value;
      }
      if k :| 0 < k < |opts| && opts[k].value == value {
        assert languages[k - 1].code == value;
      }
    }
  }

  /** `handleLanguageSelection`'s construction of the `<select>`, one `appendChild` at a time. */
  method BuildOptions(languages: seq<Language>, currentCode: string) returns (opts: seq<LangOption>)
    ensures opts == OptionList(languages, currentCode)
  {
    opts := [];
    if |languages| > 0 {
      opts := [Placeholder];
      var i := 0;
      while i < |languages|
        invariant 0 <= i <= |languages|
        invariant opts == [Placeholder] + LanguageOptions(languages[..i], currentCode)
      {
        var option := LangOption(languages[i].code, languages[i].name, false);
        if languages[i].code == currentCode {
          option := option.(selected := true);
        }
        opts := opts + [option];
        assert languages[..i + 1][..i] == languages[..i];
        i := i + 1;
      }
      assert languages[..i] == languages;
    }
  }

  /** The message box text a failed fetch leaves, `Error: ${error.message}`. */
  function FailureMessage(outcome: FetchOutcome): (m: string)
    requires outcome.NotOk? || outcome.Thrown?
    ensures ErrorPrefix <= m
    ensures outcome.NotOk? ==> m[|ErrorPrefix|..] == NotOkMessage
    ensures outcome.Thrown? ==> m[|ErrorPrefix|..] == outcome.message
  {
    var message := if outcome.NotOk? then NotOkMessage else outcome.message;
    ErrorPrefix + message
  }

  /** The text the copy button writes to the clipboard, if any. */
  function ClipboardText(title: string, transcript: string): (clip: Option<string>)
    ensures clip.None? <==> transcript == ""
    ensures clip.Some? ==>
      && |clip.value| == |title| + 2 + |transcript|
      && clip.value[..|title|] == title
      && clip.value[|title|..|title| + 2] == "\n\n"
      && clip.value[|title| + 2..] == transcript
  {
    if transcript == "" then None else Some(title + "\n\n" + transcript)
  }

  class Session {
    var transcript: string
    var videoTitle: string
    /** `None` for JavaScript's `null`, what `getVideoUrl` returns when no video is found. */
    var videoUrl: Option<string>
    /** `!copyButton.disabled`. */
    var copyEnabled: bool
    /** The message box: `None` while hidden, its text once shown. */
    var message: Option<string>
    var output: Output
    /** The `<option>`s of the drop-down, empty when there is none. */
    var options: seq<LangOption>
    /** Whether the `#video-info` block around the drop-down is displayed. */
    var dropdownShown: bool

    /** Whether the popup has run `initTranscriptFetching` (once, on opening). */
    ghost var activated: bool
    /** The fetches issued whose completion has not arrived yet. */
    ghost var pending: multiset<FetchRequest>

    ghost predicate Valid()
      reads this
    {
      && (!copyEnabled ==> transcript == "" && videoTitle == "")
      && (options != [] ==> copyEnabled && activated && videoUrl.Some? && videoUrl.value != "")
      && (pending != multiset{} ==> activated && videoUrl.Some? && videoUrl.value != "")
      && (pending != multiset{} ==> !dropdownShown && |pending| == 1)
      && (!activated ==> videoUrl == Some("") && pending == multiset{} && options == [])
    }

    /** The drop-down offers an option with this value. */
    ghost predicate Offers(code: string)
      reads this
    {
      HasValue(options, code)
    }

    /**
     * The state the popup script sets up before anything runs; the initial
     * display of `#video-info` comes from the popup's markup.
     */
    constructor (initiallyShown: bool)
      ensures Valid() && !activated && pending == multiset{}
      ensures transcript == "" && videoTitle == "" && videoUrl == Some("")
      ensures !copyEnabled && message.None? && output == Blank && options == []
      ensures dropdownShown == initiallyShown
    {
      dropdownShown := initiallyShown;
      transcript := "";
      videoTitle := "";
      videoUrl := Some("");
      copyEnabled := false;
      message := None;
      output := Blank;
      options := [];
      activated := false;
      pending := multiset{};
    }

    /**
     * The first half of `fetchAndDisplayTranscript`: hide the drop-down, show
     * the spinner and send the request.
     */
    method IssueFetch(url: string, lang: string) returns (req: FetchRequest)
      requires Valid() && activated && videoUrl == Some(url) && url != "" && pending == multiset{}
      modifies this`dropdownShown, this`output, this`pending
      ensures Valid()
      ensures req == FetchRequest(url, lang)
      ensures !dropdownShown && output == Loading && pending == multiset{req}
    {
      req := FetchRequest(url, lang);
      dropdownShown := false;
      output := Loading;
      pending := pending + multiset{req};
    }

    /**
     * `initTranscriptFetching` with the tab's URL and the probe's answer:
     * store the resolved URL, then either show the no-video message or issue
     * one fetch in the default language.
     */
    method Activate(tabUrl: Option<string>, probe: Option<string>) returns (req: Option<FetchRequest>)
      requires Valid() && !activated
      modifies this
      ensures Valid() && activated
      ensures videoUrl == Resolve(tabUrl, probe)
      ensures videoUrl.None? ==>
        && req.None? && message == Some(NoVideoMessage)
        && dropdownShown == old(dropdownShown) && output == old(output) && pending == old(pending)
      ensures videoUrl.Some? ==>
        && req == Some(FetchRequest(videoUrl.value, ""))
        && message == old(message) && !dropdownShown && output == Loading
        && pending == multiset{req.value}
      ensures transcript == old(transcript) && videoTitle == old(videoTitle)
      ensures copyEnabled == old(copyEnabled) && options == old(options)
    {
      var resolved := Resolve(tabUrl, probe);
      videoUrl := resolved;
      activated := true;
      if resolved.Some? {
        var r := IssueFetch(resolved.value, "");
        req := Some(r);
      } else {
        message := Some(NoVideoMessage);
        req := None;
      }
    }

    /**
     * The arrival of one issued fetch's outcome: the second half of
     * `fetchAndDisplayTranscript`, with `fetchTranscript`'s error path and
     * `displayTranscript`.
     */
    method CompleteFetch(ghost req: FetchRequest, outcome: FetchOutcome)
      requires Valid() && req in pending
      modifies this
      ensures Valid() && activated == old(activated) && pending == multiset{}
      ensures videoUrl == old(videoUrl)
      ensures outcome.Fetched? ==>
        && transcript == outcome.data.transcript && videoTitle == outcome.data.title
        && copyEnabled && dropdownShown && output == ShowingTranscript && message == old(message)
        && options == OptionList(outcome.data.languages, outcome.data.transcriptLanguageCode)
      ensures !outcome.Fetched? ==>
        && transcript == old(transcript) && videoTitle == old(videoTitle)
        && copyEnabled == old(copyEnabled) && options == old(options)
        && !dropdownShown && output == FetchFailed
      ensures outcome.NullBody? ==> message == old(message)
      ensures (outcome.NotOk? || outcome.Thrown?) ==> message == Some(FailureMessage(outcome))
    {
      assert pending == multiset{req} by {
        assert |pending - multiset{req}| == 0;
      }
      pending := multiset{};
      if outcome.Fetched? {
        ShowResponse(outcome.data);
      } else {
        ReportFailure(outcome);
      }
    }

    /** `fetchAndDisplayTranscript` on a truthy body, with `displayTranscript`. */
    method ShowResponse(data: Response)
      requires Valid() && activated && videoUrl.Some? && videoUrl.value != "" && pending == multiset{}
      modifies this`transcript, this`videoTitle, this`copyEnabled, this`output, this`dropdownShown, this`options
      ensures Valid()
      ensures transcript == data.transcript && videoTitle == data.title
      ensures copyEnabled && dropdownShown && output == ShowingTranscript
      ensures options == OptionList(data.languages, data.transcriptLanguageCode)
    {
      copyEnabled := true;
      transcript := data.transcript;
      videoTitle := data.title;
      output := ShowingTranscript;
      dropdownShown := true;
      options := BuildOptions(data.languages, data.transcriptLanguageCode);
    }

    /** A fetch that yields no data: `fetchTranscript`'s error path and the error text in the output. */
    method ReportFailure(outcome: FetchOutcome)
      requires Valid() && !outcome.Fetched?
      modifies this`message, this`output
      ensures Valid() && output == FetchFailed
      ensures outcome.NullBody? ==> message == old(message)
      ensures !outcome.NullBody? ==> message == Some(FailureMessage(outcome))
    {
      if !outcome.NullBody? {
        message := Some(FailureMessage(outcome));
      }
      output := FetchFailed;
    }

    /**
     * `CompleteFetch` with the drop-down shown again after a fetch without
     * data too, so that a failed fetch does not end language switching.
     */
    method CompleteFetchRevealing(ghost req: FetchRequest, outcome: FetchOutcome)
      requires Valid() && req in pending
      modifies this
      ensures Valid() && activated == old(activated) && pending == multiset{}
      ensures videoUrl == old(videoUrl) && dropdownShown
      ensures outcome.Fetched? ==>
        && transcript == outcome.data.transcript && videoTitle == outcome.data.title
        && copyEnabled && output == ShowingTranscript && message == old(message)
        && options == OptionList(outcome.data.languages, outcome.data.transcriptLanguageCode)
      ensures !outcome.Fetched? ==>
        && transcript == old(transcript) && videoTitle == old(videoTitle)
        && copyEnabled == old(copyEnabled) && options == old(options) && output == FetchFailed
      ensures outcome.NullBody? ==> message == old(message)
      ensures (outcome.NotOk? || outcome.Thrown?) ==> message == Some(FailureMessage(outcome))
    {
      CompleteFetch(req, outcome);
      dropdownShown := true;
    }

    /**
     * The drop-down's change handler: the placeholder does nothing, any
     * other language issues a fetch for the stored video URL in that language.
     * Only a displayed drop-down can report a change.
     */
    method SelectLanguage(code: string) returns (req: Option<FetchRequest>)
      requires Valid() && dropdownShown && Offers(code)
      modifies this
      ensures Valid()
      ensures videoUrl == old(videoUrl) && activated == old(activated)
      ensures code == "" ==>
        && req.None? && dropdownShown == old(dropdownShown)
        && output == old(output) && pending == old(pending)
      ensures code != "" ==>
        && videoUrl.Some? && req == Some(FetchRequest(videoUrl.value, code))
        && !dropdownShown && output == Loading && pending == multiset{req.value}
      ensures transcript == old(transcript) && videoTitle == old(videoTitle) && message == old(message)
      ensures copyEnabled == old(copyEnabled) && options == old(options)
    {
      if code != "" {
        var r := IssueFetch(videoUrl.value, code);
        req := Some(r);
      } else {
        req := None;
      }
    }

    /** The copy button's click handler: what it writes to the clipboard, if anything. */
    method Copy() returns (clip: Option<string>)
      requires Valid()
      ensures clip == ClipboardText(videoTitle, transcript)
      ensures clip.Some? ==> copyEnabled
    {
      clip := ClipboardText(videoTitle, transcript);
    }
  }

  /** Opening the popup on a video page whose first fetch succeeds. */
  method OpenOnVideo(url: string, first: Response) returns (s: Session)
    requires IsDirect(url)
    ensures fresh(s) && s.Valid() && s.activated && s.pending == multiset{}
    ensures s.videoUrl == Some(url) && s.copyEnabled && s.dropdownShown
    ensures s.transcript == first.transcript && s.videoTitle == first.title
    ensures s.options == OptionList(first.languages, first.transcriptLanguageCode)
  {
    s := new Session(false);
    var r := s.Activate(Some(url), None);
    s.CompleteFetch(r.value, Fetched(first));
  }

  /**
   * At most one fetch is in flight: issuing one hides the drop-down, the only
   * source of further requests, until a reply with data shows it again.
   */
  lemma OneFetchInFlight(s: Session)
    requires s.Valid()
    ensures |s.pending| <= 1
    ensures s.dropdownShown ==> s.pending == multiset{}
  {
  }

  /**
   * A language switch whose request throws keeps the transcript shown before
   * it, which the copy button still copies; the error is reported, and the
   * drop-down stays hidden with nothing pending, so no further language can
   * be chosen (`Session.SelectLanguage` needs a displayed drop-down).
   */
  method FailedSwitchKeepsTranscript(url: string, first: Response, code: string, error: string)
    returns (s: Session, clip: Option<string>)
    requires IsDirect(url) && first.transcript != ""
    requires code != "" && HasLanguage(first.languages, code)
    ensures clip == Some(first.title + "\n\n" + first.transcript)
    ensures s.message == Some(ErrorPrefix + error)
    ensures s.copyEnabled && !s.dropdownShown && s.output == FetchFailed
    ensures s.Valid() && s.activated && s.pending == multiset{}
  {
    s := OpenOnVideo(url, first);
    OfferedValues(first.languages, first.transcriptLanguageCode, code);
    var switched := s.SelectLanguage(code);
    s.CompleteFetch(switched.value, Thrown(error));
    clip := s.Copy();
  }
  /** Opening the popup where no video is found issues no fetch and leaves nothing to copy. */
  method NothingFound(url: string, probe: Option<string>) returns (s: Session, req: Option<FetchRequest>, clip: Option<string>)
    requires Resolve(Some(url), probe).None?
    ensures req.None? && clip.None?
    ensures s.message == Some(NoVideoMessage) && !s.copyEnabled && s.pending == multiset{}
  {
    s := new Session(false);
    req := s.Activate(Some(url), probe);
    clip := s.Copy();
  }

  /**
   * With the corrected completion, a language switch that fails leaves the
   * drop-down usable: choosing another offered language issues its fetch.
   */
  method RetryAfterFailure(s: Session, code: string, other: string, error: string) returns (req: Option<FetchRequest>)
    requires s.Valid() && s.dropdownShown
    requires code != "" && s.Offers(code) && other != "" && s.Offers(other)
    modifies s
    ensures s.videoUrl.Some? && req == Some(FetchRequest(s.videoUrl.value, other))
    ensures s.message == Some(ErrorPrefix + error) && s.pending == multiset{req.value}
  {
    var switched := s.SelectLanguage(code);
    s.CompleteFetchRevealing(switched.value, Thrown(error));
    req := s.SelectLanguage(other);
  }
}
