# Apollo Mission Viewer web part — a Dafny model of its logic

The Apollo Mission Viewer is a SharePoint web part that shows one NASA Apollo
mission: its name, its duration and a link to its Wikipedia page. Apart from
HTML templating and host-framework configuration, the web part class
(`NasaApolloMissionViewerWebPart`) holds three small pieces of logic, and this
project models and proves them:

- **the mission-code validator** of the property pane (`_validateMissionCode`):
  the text typed for "Apollo Mission to Show" is accepted (empty error
  message) when the global regular expression `AS-[2,5][0,1][0-9]` matches
  anywhere in it, and otherwise gets the fixed message
  `invalid mission code: shoudl be 'AS-###'.` (spelling as in the web part).
  Module `MissionCode` models `String.prototype.match` as the regex engine
  runs it: an attempt at each start position from left to right
  (`FindMatch`), resuming after each match for the global flag
  (`MatchPositions`), and returning `null` or the matched substrings
  (`Match`). The global search is proved to find every position where the
  pattern matches (`MatchIsFound`), in order and without overlap, and `match` to return exactly the text at those positions. Its
  null/non-null answer, and so the validator's, is proved equal to an
  independent definition, "some substring of the value is a word of the
  pattern's language" (`ContainsCode`, `InCodeLanguage`). Two properties of the pattern as
  written are proved rather than assumed. Inside a character class a comma
  is a literal, so `AS-,,0` is accepted. The pattern has no anchors, so
  anything may stand before or after an accepted code.
- **the timeline formatter** (`_getMissionTimeline`), module
  `MissionTimeline`: the launch date, followed by ` - ` and the end date when
  the record's end date is not the empty string. The inverse `EndDateOf`
  reads the end date back, which proves that the format loses nothing.
- **the mission selection** (`_getSelectedMission`), module
  `MissionSelection`: the `selectedMission` property when it is truthy,
  `AS-506` (Apollo 11) when it is absent or empty. The chosen id goes
  unchanged to the mission lookup, and its answer is returned as it is.

`Wrappers` holds `Option`, and `Missions` holds the mission record.

The mission lookup service and the mission record type are not part of this
model. The lookup is represented by a map from ids to records
(`GetMission`), where a missing id stands for its `null`. The record
has the fields the web part reads. Dates are kept as the text their
`toString()` produces. The code compares `end_date` with the empty string, so
an empty string is how the model writes "no end date".

## Model

| member | source | states |
|---|---|---|
| `MissionCode.ValidateMissionCode` | src/webparts/nasaApolloMissionViewer/NasaApolloMissionViewerWebPart.ts:150-155 | the result is `''` exactly when some substring of the value is a word of `AS-[2,5][0,1][0-9]`; any other result is the fixed error message |
| `MissionCode.FindMatch` | src/webparts/nasaApolloMissionViewer/NasaApolloMissionViewerWebPart.ts:151-152 | the engine's scan finds the leftmost start position, at or after the given one, where the pattern matches, and no match lies before it; it finds nothing only when no position from there matches |
| `MissionCode.MatchPositions` | src/webparts/nasaApolloMissionViewer/NasaApolloMissionViewerWebPart.ts:151-152 | the global search returns match positions that are real matches, in increasing order and not overlapping; the list is empty exactly when no position matches |
| `MissionCode.NoSelfOverlap` | src/webparts/nasaApolloMissionViewer/NasaApolloMissionViewerWebPart.ts:151 | no attempt succeeds at a position strictly inside a match, so matches of the pattern never overlap |
| `MissionCode.MatchIsFound` | src/webparts/nasaApolloMissionViewer/NasaApolloMissionViewerWebPart.ts:151-152 | every position at or after the start where the pattern matches is among the positions the global search finds |
| `MissionCode.NoMatchBeforeFirst` | src/webparts/nasaApolloMissionViewer/NasaApolloMissionViewerWebPart.ts:151-152 | the global search skips no match before the first position it finds |
| `MissionCode.NoMatchBetweenConsecutive` | src/webparts/nasaApolloMissionViewer/NasaApolloMissionViewerWebPart.ts:151-152 | the global search skips no match between two consecutive positions it finds |
| `MissionCode.NoMatchAfterLast` | src/webparts/nasaApolloMissionViewer/NasaApolloMissionViewerWebPart.ts:151-152 | the global search skips no match after the last position it finds |
| `MissionCode.MatchedTextsInLanguage` | src/webparts/nasaApolloMissionViewer/NasaApolloMissionViewerWebPart.ts:151 | the six characters at every position where an attempt succeeds form a word of the language |
| `MissionCode.Match` | src/webparts/nasaApolloMissionViewer/NasaApolloMissionViewerWebPart.ts:152 | `match` gives `null` exactly when no substring is a word of the pattern's language; otherwise it gives a non-empty list whose j-th entry is the text of the value at the j-th match position, a word of the language |
| `MissionCode.MatchesAtIffWindow` | src/webparts/nasaApolloMissionViewer/NasaApolloMissionViewerWebPart.ts:151 | one attempt at a position succeeds exactly when the six characters there form a word of the language |
| `MissionCode.ContainsCodeIffSomeMatch` | src/webparts/nasaApolloMissionViewer/NasaApolloMissionViewerWebPart.ts:151-152 | some substring is in the language exactly when the engine succeeds at some start position |
| `MissionCode.ValidatorAnswers` | src/webparts/nasaApolloMissionViewer/NasaApolloMissionViewerWebPart.ts:152-154 | the validator answers with exactly one of two strings: `''` or the fixed error message |
| `MissionCode.UnanchoredAcceptance` | src/webparts/nasaApolloMissionViewer/NasaApolloMissionViewerWebPart.ts:151-152 | the pattern is unanchored: if a value is accepted, so is that value with any prefix and any suffix |
| `MissionCode.SixCharacterCodes` | src/webparts/nasaApolloMissionViewer/NasaApolloMissionViewerWebPart.ts:151 | `AS-` followed by three characters is accepted exactly when they lie in `{2 , 5}`, `{0 , 1}` and `0`-`9` in turn |
| `MissionCode.CommaIsAccepted` | src/webparts/nasaApolloMissionViewer/NasaApolloMissionViewerWebPart.ts:151 | the comma is a literal member of both classes, so `AS-,,0` is accepted |
| `MissionCode.OutOfClassRejected` | src/webparts/nasaApolloMissionViewer/NasaApolloMissionViewerWebPart.ts:151 | `AS-306` and `AS-526` are rejected with the error message |
| `MissionCode.SurroundedCodeAccepted` | src/webparts/nasaApolloMissionViewer/NasaApolloMissionViewerWebPart.ts:151-152 | `xAS-506y` is accepted |
| `MissionCode.ShortValueRejected` | src/webparts/nasaApolloMissionViewer/NasaApolloMissionViewerWebPart.ts:151-154 | every value shorter than six characters is rejected with the error message |
| `MissionCode.MatchStartsWithPrefix` | src/webparts/nasaApolloMissionViewer/NasaApolloMissionViewerWebPart.ts:151 | an attempt only succeeds where `AS-` occurs |
| `MissionCode.NoPrefixRejected` | src/webparts/nasaApolloMissionViewer/NasaApolloMissionViewerWebPart.ts:151-154 | every value in which `AS-` occurs nowhere is rejected with the error message |
| `MissionTimeline.Timeline` | src/webparts/nasaApolloMissionViewer/NasaApolloMissionViewerWebPart.ts:223-227 | the timeline begins with the launch date; its length is that of the launch date alone when the end date is empty, and launch + 3 + end otherwise |
| `MissionTimeline.EndDateOf` | src/webparts/nasaApolloMissionViewer/NasaApolloMissionViewerWebPart.ts:225 | what is read back as the end date is a suffix of the timeline |
| `MissionTimeline.TimelineRoundTrip` | src/webparts/nasaApolloMissionViewer/NasaApolloMissionViewerWebPart.ts:224-226 | the end date, empty or not, is recovered from the timeline and the launch date; with an end date, ` - ` stands between the two dates |
| `MissionTimeline.TimelineDeterminesEndDate` | src/webparts/nasaApolloMissionViewer/NasaApolloMissionViewerWebPart.ts:224-226 | two missions with the same launch date and the same timeline have the same end date |
| `MissionTimeline.TimelineExamples` | src/webparts/nasaApolloMissionViewer/NasaApolloMissionViewerWebPart.ts:224-226 | launch `1969-07-16` and end `1969-07-24` give `1969-07-16 - 1969-07-24`; with an empty end date the timeline is `1969-07-16` alone |
| `MissionSelection.SelectedMissionId` | src/webparts/nasaApolloMissionViewer/NasaApolloMissionViewerWebPart.ts:179-181 | the id is the property unchanged when the property is a non-empty string, and `AS-506` when it is absent or empty; it is never empty |
| `MissionSelection.GetMission` | src/webparts/nasaApolloMissionViewer/NasaApolloMissionViewerWebPart.ts:184 | the lookup answers "not found" exactly when no record is kept under the id, and otherwise returns the record kept under the id |
| `MissionSelection.GetSelectedMission` | src/webparts/nasaApolloMissionViewer/NasaApolloMissionViewerWebPart.ts:177-185 | with the property truthy the lookup is asked for the property unchanged, otherwise for `AS-506`; its answer is returned unchanged |
| `MissionSelection.SelectionIdempotent` | src/webparts/nasaApolloMissionViewer/NasaApolloMissionViewerWebPart.ts:179-181 | writing the selected id back into the property selects the same id |
| `MissionSelection.FoundMissionHasSelectedId` | src/webparts/nasaApolloMissionViewer/NasaApolloMissionViewerWebPart.ts:184 | when every record is kept under its own id, a found mission has the selected id, and nothing is found exactly when no record has that id |
| `MissionSelection.DefaultSelectsApolloEleven` | src/webparts/nasaApolloMissionViewer/NasaApolloMissionViewerWebPart.ts:178-184 | with the property absent or empty, the lookup is asked for `AS-506` |
| `MissionSelection.DefaultIdIsValid` | src/webparts/nasaApolloMissionViewer/NasaApolloMissionViewerWebPart.ts:181 | the default id `AS-506` is accepted by the property-pane validator |
| `MissionSelection.ValidatorDoesNotGuardLookup` | src/webparts/nasaApolloMissionViewer/NasaApolloMissionViewerWebPart.ts:179-184 | the selection checks nothing itself: every non-empty value is passed to the lookup unchanged, including `AS-306`, which the validator rejects |

## Left out

- `render`, `_renderMissionDetails` and `onAfterPropertyPaneChangesApplied`: HTML templating and lifecycle callbacks that write `innerHTML`; their only logic is a null check on the selected mission.
- `onInit`: it calls the environment-message and selection helpers and then the host framework.
- `escape`: a call into a library whose code is not part of this model.
- `getPropertyPaneConfiguration`: a static configuration literal for the host framework. Its only link to the model is that it installs the validator on the `selectedMission` field.
- `onThemeChanged`: theming through CSS custom properties.
- `_getEnvironmentMessage`: it reads host context flags and localized string resources that are not part of this model.
- `dataVersion` and `disableReactivePropertyChanges`: constant answers to the host framework.
- `MissionService.getMission`: its code is not part of this model. It is represented by a map from ids to records, so the model proves only which id it is asked for and that its answer is passed on unchanged.
- The `IMission` type: it is not part of this model. The record carries the fields the web part reads.
- `Date.prototype.toString`: it depends on locale and time zone. Dates are kept as their text.
- The regular expression's `lastIndex` state: the literal is rebuilt on every call and `match` with the global flag resets it, so the validator keeps no state between calls.
