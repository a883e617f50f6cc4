# Bella avatar: crossfade player, keyword reaction and transcript folding

This project models the logic of the avatar widget in `script.js`. The widget shows a looping
avatar video on one of two `<video>` elements and crossfades to the other element when it
changes video. The model covers three pieces:

- **Keyword emotion classifier** (`Classifier`, `analyzeAndReact`). The utterance is
  lower-cased. Each keyword is tested for plain substring containment, so "dislike" matches
  "like". Positive keywords are tried first and win on overlap. A text with no keyword is
  neutral. `Emotion` has exactly the three values positive, negative and neutral.
- **Two-slot crossfade** (`Playlist` and `Avatar`). The two elements are objects. The
  `activeVideo`/`inactiveVideo` role variables are fields that the ready handler swaps. A
  transition has two steps. The request writes the source into the inactive element, calls
  `load()` and registers a one-shot `canplaythrough` listener. The ready event then runs that
  listener: it plays the new video, moves the `active` class, swaps the roles and arms
  `ended → switchVideo` on the new active element. There are three kinds of request:
  - the rotation redraws until it leaves the current video;
  - a menu pick is a no-op when its video already shows;
  - an emotional reaction draws from the positive pool or takes the single negative
    video, and is also a no-op when that video already shows.
- **Transcript folding** (`Transcript`, `recognition.onresult`). From `resultIndex` on, final
  transcripts are concatenated into one string and interim transcripts into another. The
  final string is shown if it is non-empty, else the interim string. Only a non-empty final
  string triggers the reaction.

`Math.random()` is replaced by draws that the caller supplies. A draw is an index in the
range of `Math.floor(Math.random() * n)`. The rotation takes a sequence of draws. Its
precondition `RotationCanFinish` says that some draw lands on a video other than the
current one; without that, the redraw loop of the source never stops. `RotationAlwaysPossible`
shows that the rotation list allows this for every current video.

The code has no guard against a second request arriving while a transition is pending
(script.js:54-58, 167-170, 332-335): the request overwrites the inactive element's source and
adds another listener. `FireReady` therefore states only that the roles swap and the inactive
element's current source becomes the active one. Menu picks also re-arm the `ended` rotation
(script.js:177), as emotional reactions do (script.js:343).

## Model

| member | source | states |
|---|---|---|
| `Classifier.ToLower` | script.js:307-309 | lower-casing keeps the length and maps each character through `LowerChar` |
| `Classifier.ToLowerIdempotent` | script.js:307-309 | lower-casing an already lower-cased text changes nothing |
| `Classifier.ContainsIff` | script.js:307 | the prefix-scanning `includes` holds exactly when the keyword occurs at some position of the text |
| `Classifier.AnyContainedIff` | script.js:307-309 | `some` over the keywords holds exactly when some keyword of the list occurs in the text |
| `Classifier.Classify` | script.js:304-311 | positive iff a positive keyword occurs in the lower-cased text; negative iff none does and a negative keyword does; neutral iff neither occurs |
| `Classifier.ClassifyIgnoresCase` | script.js:307-309 | a text and its lower-cased form classify alike |
| `Classifier.MixedUtteranceIsPositive` | script.js:305-311 | "I am so happy and sad" is positive: positive keywords take precedence |
| `Classifier.DislikeIsPositive` | script.js:182 | "I dislike this" is positive because "like" is a substring of "dislike" |
| `Classifier.ShoutedSadIsNegative` | script.js:309-310 | "SAD" is negative: the text is lower-cased before matching |
| `Playlist.EmotionPick` | script.js:319-325 | a positive pick is a member of `positiveVideos`; any other pick is `negativeVideo`; every pick is in `videoList` |
| `Playlist.PickRotation` | script.js:46-51 | the redraw loop stops at the first draw whose video differs from the current one; that video is in `videoList`; all earlier draws hit the current video |
| `Playlist.RotationPickUnique` | script.js:46-51 | the draws determine the rotation's choice |
| `Playlist.RotationAlwaysPossible` | script.js:34-41 | for every current video some draws end the redraw loop |
| `Transcript.Pending` | script.js:89 | the handler visits the results from `resultIndex` on, and none when `resultIndex` is past the end |
| `Transcript.FoldTranscript` | script.js:86-95 | the final string is the in-order concatenation of the visited final transcripts; the interim string is the same for the non-final ones |
| `Transcript.FinalEmptyIff` | script.js:90-91 | the final string is empty exactly when every visited final result has an empty transcript |
| `Transcript.FoldPartitions` | script.js:89-95 | every visited result goes to exactly one of the two strings; their lengths add up to the total transcript length |
| `Avatar.VideoElement.constructor` | script.js:17-18 | an element starts with its source, its class and its play state, and no pending listeners |
| `Avatar.VideoElement.Load` | script.js:54-58 | a request sets the source, reloads once more and appends one pending `canplaythrough` listener; class, play state and `ended` arming are unchanged |
| `Avatar.Player.constructor` | script.js:30-31 | the first element is active, plays and has `ended → switchVideo` armed (line 71); the second is inactive |
| `Avatar.Player.SwitchVideo` | script.js:44-58 | the inactive element is requested with the rotation's pick, which differs from the active video and is in `videoList`; the roles are unchanged until ready |
| `Avatar.Player.PlaySpecificVideo` | script.js:163-170 | a pick equal to the active video leaves both elements untouched; any other is requested on the inactive element |
| `Avatar.Player.SwitchVideoByEmotion` | script.js:318-335 | the emotion's pick is requested unless it already shows, in which case nothing changes |
| `Avatar.Player.AnalyzeAndReact` | script.js:304-316 | a neutral text changes nothing; otherwise the reaction of `SwitchVideoByEmotion` happens |
| `Avatar.Player.OnResult` | script.js:84-104 | the shown text is the final string if non-empty, else the interim string; the reaction runs iff the final string is non-empty |
| `Avatar.Player.FireReady` | script.js:58-67 | the roles swap; the new active element holds the source the inactive one held, is the only one marked active, plays and has `ended` armed; the old active keeps its source; menu and reaction listeners (lines 170-178, 335-344) also pause it |
| `Avatar.Player.FireEnded` | script.js:66 | the `ended` listener is consumed and the rotation requests a video other than the active one |
| `Avatar.SadReactionThenRotation` | script.js:313-345 | after a negative reaction becomes ready the negative video shows, and its end leads the rotation to a different video |

## Left out

- Loading-screen fade, menu show/hide and click propagation, and microphone toggling: these are DOM styling and UI wiring.
- The Transformers.js sentiment demo and the Whisper-based local recognition: these are foreign ML calls, media capture, audio decoding and promises.
- `Math.random()`: replaced by caller-supplied draws. Uniform distribution is not modelled.
- Media loading itself, and `play()` failures: these are only logged in the source. `play()` is modelled as always setting the playing flag.
- `Classifier.ToLower`: only `A`–`Z` are lower-cased. JavaScript's `toLowerCase` also maps other Unicode letters, for example the Kelvin sign to `k`. The keywords are ASCII, but such characters in an utterance could match a keyword in the source and not in the model.
- `Avatar.Player.FireReady`: runs one pending listener per call. A real `canplaythrough` dispatch runs all pending listeners of the element back to back, with no other event between them. The model allows that interleaving and others.
- The HTML page is not part of this model. `Avatar.Player.constructor` takes the two initial sources as parameters and assumes the page marks the first element `active` and autoplays it, with the second inactive and paused. script.js:30 makes the first element the active role whatever the markup says, so `Valid()` holding at start-up rests on that assumption.
- `Avatar.Player.OnResult`: the recognition event is reduced to its results from `resultIndex` on, each with its finality and the transcript of its first alternative.
