# YouTube transcript popup, modelled in Dafny

This project models the popup of a browser extension that shows the transcript of the
YouTube video in the active tab (`src/popup.js`). The model has three parts:

- `js_string.dfy` (module `JsString`) defines the JavaScript string primitives the popup
  relies on, over `seq<char>`: `includes`, and `split` with a non-empty separator. Both
  are built on `IndexOf`, a first-occurrence search with the semantics of JavaScript's
  `indexOf`. The expression `s.split(a)[1]?.split(b)[0]` is characterised in both
  directions, for an `a` that cannot overlap itself and a one-character `b` not in `a`
  (true of `embed/` and `?`).
- `video_locator.dfy` (module `VideoLocator`) models `getVideoUrl`, as a pure function of
  the tab's URL and the in-page probe's answer:
  - a tab already on a watch, shorts or `youtu.be` URL is used as it is;
  - otherwise the video id is cut out of an embedded player's `src` and turned into a
    canonical watch URL;
  - otherwise there is no video (JavaScript's `null`, `None` here).
- `transcript_session.dfy` (module `TranscriptSession`) models the popup's state as the
  class `Session`:
  - the fields are the transcript, the title, the resolved video URL, whether the copy
    button is enabled, the message box, what the transcript area shows, whether the
    language drop-down is displayed, and the drop-down's options;
  - the methods are the handlers that change that state.

A fetch to the transcript service is two events:

- issuing it shows the spinner, hides the drop-down and records a pending request
  `{url, lang}`;
- its completion applies the reply.

The drop-down is the only source of requests after the first one. Issuing a fetch hides it,
and only a reply with data shows it again. So at most one fetch is ever in flight
(`OneFetchInFlight`), and no reply can overtake another. The code keeps no request
counter, and needs none for that reason.

A fetch that yields no data leaves the drop-down hidden for good. The previous transcript
stays copyable, but no other language can be chosen (`FailedSwitchKeepsTranscript`). See
"## Findings".

`wrappers.dfy` holds the `Option` type. JavaScript's `null` and `undefined` are `None`.

## Model

| member | source | states |
|---|---|---|
| JsString.IndexOf | src/popup.js:43 | the first-occurrence search `Includes` and `Split` are built on: the result is an occurrence of the pattern and no earlier index is one; `None` exactly when the pattern occurs nowhere |
| JsString.IncludesIff | src/popup.js:43 | `Includes`, the model of `includes`, holds exactly when the pattern occurs at some index |
| JsString.IncludesMiddle | src/popup.js:43 | a string built as `x + pat + y` includes `pat` |
| JsString.ExcludedByChar | src/popup.js:43 | a string lacking any one character of the pattern does not include it |
| JsString.Split | src/popup.js:48 | `split`: at least one piece; joining the pieces with the separator gives the string back; no piece contains the separator; a single piece exactly when the separator does not occur |
| JsString.SplitHead | src/popup.js:48 | the first piece is a prefix of the string; it is the whole string when the separator is absent, and is followed by the separator otherwise |
| JsString.SplitAt | src/popup.js:48 | when the first occurrence of the separator is at `n`, the split is the text before `n` followed by the split of the text after that occurrence |
| JsString.SplitFirst | src/popup.js:48 | a string containing the separator splits into the text before its first occurrence followed by the split of the remainder |
| JsString.SplitWhole | src/popup.js:48 | a string without the separator splits into itself alone |
| JsString.BeforeFirstExcludes | src/popup.js:48 | the text before the first occurrence does not contain the pattern |
| JsString.CutBetween | src/popup.js:48 | `s.split(a)[1]?.split(b)[0]`, computed as the second piece of the split on `a`, then the first piece of its split on `b`: undefined exactly when `s` has no `a`; its value contains neither `a` nor `b` |
| JsString.CutBetweenShape | src/popup.js:48 | any value of that expression stands right after the first `a` of `s`, and is followed by the end of `s`, a `b` or the next `a` |
| JsString.CutBetweenOf | src/popup.js:48 | conversely, for an `a` that cannot overlap itself and a one-character `b` not in `a` (true of `embed/` and `?`): a prefix without `a`, then `a`, then a text free of `a` and `b`, then the end, a `b` or another `a`, yields exactly that text |
| JsString.CutBetweenAfter | src/popup.js:48 | for an `a` that cannot overlap itself (true of `embed/`): after a prefix without `a` and one `a`, the expression cuts the text that follows |
| JsString.HeadCutShape | src/popup.js:48 | `rest.split(a)[0].split(b)[0]` is a prefix of `rest` followed by its end, a `b` or an `a` |
| JsString.HeadCutOf | src/popup.js:48 | for an `a` that cannot overlap itself and a one-character `b` not in `a` (true of `embed/` and `?`): a text free of `a` and `b`, followed by the end, a `b` or an `a`, is cut exactly there |
| JsString.OccurrencesApart | src/popup.js:48 | two occurrences of a separator that cannot overlap itself are at least its length apart |
| VideoLocator.IsDirect | src/popup.js:43 | the tab URL contains `youtube.com/watch?v=`, `youtube.com/shorts` or `youtu.be/`; such a URL is at least as long as `youtu.be/` |
| VideoLocator.EmbedVideoId | src/popup.js:48 | the id from an iframe `src` is undefined exactly when `src` has no `embed/`; otherwise it contains neither `?` nor `embed/` |
| VideoLocator.EmbedSeparators | src/popup.js:48 | `embed/` cannot overlap itself and `?` is a single character not in `embed/` |
| VideoLocator.EmbedVideoIdOf | src/popup.js:48 | a `src` of the form prefix, `embed/`, id, then the end, a `?` or another `embed/`, yields exactly that id |
| Wrappers.Option.GetOr | src/popup.js:40 | the tab URL defaulting to `''`: a present URL is used as it is, a missing one reads as the empty string |
| VideoLocator.Resolve | src/popup.js:39-53 | a tab URL containing a video marker is returned unchanged; otherwise a URL results exactly when the probe returns a `src` with a non-empty embedded id, and it is the watch prefix followed by that id; a result is never empty |
| VideoLocator.ResolveEmbedded | src/popup.js:45-50 | a non-video tab whose probe finds a player of the form above with a non-empty id resolves to the watch URL of that id |
| VideoLocator.DirectWithWatchMarker | src/popup.js:43-44 | any URL containing `youtube.com/watch?v=` is used as it is |
| VideoLocator.NotDirectWithoutY | src/popup.js:43 | a URL without the letter `y` matches none of the three markers |
| VideoLocator.ResolveWatchPage | src/popup.js:43-44 | the watch page `https://www.youtube.com/watch?v=abc123` resolves to itself, whatever the probe returns |
| VideoLocator.ResolveEmbeddingPage | src/popup.js:45-49 | a page embedding `https://www.youtube.com/embed/xyz789?foo=bar` resolves to `https://www.youtube.com/watch?v=xyz789` |
| VideoLocator.ResolveOtherPage | src/popup.js:45-52 | a page with neither a video URL nor a probe answer resolves to nothing |
| TranscriptSession.LanguageOptions | src/popup.js:120-126 | one option per language, in order, with the language's code as value, its name as text, and selected exactly when the code is the current one |
| TranscriptSession.OptionList | src/popup.js:114-128 | the drop-down is empty exactly when there are no languages; otherwise it is the placeholder with value `""` followed by one option per language as above |
| TranscriptSession.OfferedValues | src/popup.js:118-132 | the values the drop-down can report are exactly `""` and the language codes, and there are none when there are no languages |
| TranscriptSession.BuildOptions | src/popup.js:114-128 | the option-by-option construction yields exactly `OptionList` |
| TranscriptSession.FailureMessage | src/popup.js:99-104 | the message after a failed fetch starts with `Error: `, followed by `Failed to fetch transcript` for a bad status, or by the thrown error's message |
| TranscriptSession.ClipboardText | src/popup.js:139-141 | nothing is copied exactly when the transcript is empty; otherwise the text is the title, two newlines, and the transcript |
| TranscriptSession.Session.constructor | src/popup.js:12-18 | empty transcript and title, video URL `''`, copy disabled, message hidden, no drop-down options |
| TranscriptSession.Session.IssueFetch | src/popup.js:71-80 | issuing a fetch, with none in flight, hides the drop-down, shows the spinner and makes `{url, lang}` the one pending request |
| TranscriptSession.Session.Activate | src/popup.js:24-36 | the video URL becomes `Resolve(tab URL, probe)`; with no video the message is `No YouTube video found on this page.` and nothing is fetched; otherwise exactly one fetch `{videoUrl, ''}` is issued; nothing else changes |
| TranscriptSession.Session.CompleteFetch | src/popup.js:80-106 | the pending request completes and nothing is left in flight: on data, the transcript and title are taken from the reply, copy is enabled, the drop-down is shown and rebuilt from the reply's languages; otherwise the transcript, title, copy state and options are unchanged, the drop-down stays hidden, the output shows the error, and the message shows the failure text (unchanged for a null body); the video URL never changes |
| TranscriptSession.Session.CompleteFetchRevealing | src/popup.js:87-89 | corrected completion: as `CompleteFetch`, except that the drop-down is displayed afterwards whatever the outcome, so that a failure leaves language switching possible |
| TranscriptSession.Session.ShowResponse | src/popup.js:81-112 | a reply with data sets transcript and title, enables copy, shows the drop-down and rebuilds its options from the reply |
| TranscriptSession.Session.ReportFailure | src/popup.js:87-105 | a fetch without data shows the error output and sets the message to the failure text, except for a null body |
| TranscriptSession.Session.SelectLanguage | src/popup.js:130-135 | a change reported by the displayed drop-down: choosing the placeholder changes nothing; choosing a language issues one fetch for the unchanged video URL in that language |
| TranscriptSession.Session.Copy | src/popup.js:139-141 | the clipboard text is `ClipboardText(title, transcript)`, and copying happens only while the copy button is enabled |
| TranscriptSession.OpenOnVideo | src/popup.js:22-36 | opening the popup on a video URL and receiving the first reply shows that reply, enables copy and leaves no request pending |
| TranscriptSession.OneFetchInFlight | src/popup.js:72-110 | in every reachable state at most one fetch is pending, and none while the drop-down is displayed |
| TranscriptSession.FailedSwitchKeepsTranscript | src/popup.js:80-105 | a language switch whose fetch throws keeps the earlier transcript copyable, shows `Error: ` and the message, and leaves the drop-down hidden with nothing pending and the popup already opened, so no handler but copy can run again |
| TranscriptSession.RetryAfterFailure | src/popup.js:130-134 | with the corrected completion, after a failed language switch another offered language can still be chosen, and its fetch goes out |
| TranscriptSession.NothingFound | src/popup.js:29-34 | opening the popup where no video is found (the tab URL has no video marker and the probe yields no usable player) issues no fetch, shows the no-video message and leaves nothing to copy |

## Left out

- The DOM markup is not modelled. That covers the spinner HTML, the `<strong>` title markup and the literal `Error fetching transcript.` text. The transcript area is reduced to the `Output` states, and the message box's `display` to whether `message` is `Some`.
- The `Copied!` label and its two-second `setTimeout` reset are not modelled, because they are timer-driven text on the button.
- `chrome.tabs.query`, `chrome.scripting.executeScript` and `extractEmbeddedVideoUrl` (src/popup.js:25 and src/popup.js:55-69) are not modelled, because they are browser APIs. Their results are the inputs of `Resolve` and `Session.Activate`: the tab URL, with `None` for `undefined`, and the probe's `src`, with `None` when the search finds no player.
- A failed script injection is not modelled. On a page where `executeScript` cannot run, such as a `chrome://` page, `results` is `undefined`. `results[0]` at src/popup.js:66 then throws before `resolve` is called, so `getVideoUrl` never returns. The popup then shows no message and issues no fetch. The model covers only a probe that answers.
- The `typeof url !== 'string'` guard is not modelled, because the tab URL is a string by construction.
- `fetch`, the HTTP request, `apiBaseUrl` and JSON parsing are not modelled, because they are network I/O. Their result is the `FetchOutcome` argument of `Session.CompleteFetch`.
- Bodies that are truthy but lack a field, or whose `languages` is not an array, are not modelled. Every falsy body (`null`, `false`, `0`, `''`) is `NullBody`.
- `navigator.clipboard.writeText` and its possible rejection are not modelled. `Session.Copy` returns the text that would be written.
- The browser's rule that only the last `selected` option of a `<select>` stays selected is not modelled. The options keep the flags the code sets.
- Listeners on discarded `<select>` elements are not modelled. Replacing the drop-down leaves only one live change handler, and the model has one.
- Async interleaving beyond the order in which completions arrive is not modelled.
- Session.SelectLanguage: the code it is called with must be the value of one of the current options, and the drop-down must be displayed, since only a displayed `<select>` reports a `change` and only with one of its options' values. The model also accepts the option that is already selected, which the browser never reports as a `change`. No property proved here depends on that case.
- Session.Activate: runs once per popup, as `initTranscriptFetching` is called once when the script loads.

## Findings

| source | as written | input that shows it | evidently intended | confidence | as-written member | corrected member |
|---|---|---|---|---|---|---|
| src/popup.js:87-89 | a fetch that yields no data leaves `#video-info`, hidden at line 72, hidden for good, so no other language can be chosen | open the popup on a video, choose another language, and let that request fail (bad status, thrown error or null body) | a failed fetch is recoverable: the drop-down shows again, as it does after a reply with data (line 110) | medium, not executed | TranscriptSession.FailedSwitchKeepsTranscript | TranscriptSession.Session.CompleteFetchRevealing |

`Session.CompleteFetch` keeps modelling the code as written. `RetryAfterFailure` uses the
corrected completion, and shows that switching languages then goes on after a failure.
