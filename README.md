# Course progress and course-creation core of AI-Insights-WEB, modelled in Dafny

This project models the parts of the web client that hold logic rather than markup:

- **Course progress.** The course accordion keeps a progress record. It maps a topic key `"<chapterIndex>-<topicIndex>"` to a completion flag. It also keeps a "saving topic" slot and a loading flag. Toggling a topic sends a save request. The record changes only once that save has succeeded: a truthy entry is deleted, anything else becomes `true`. From the record and the chapters, the views derive the course totals, the completed count, the progress percentage, per-chapter progress, chapter completeness, and the completed and saving flags of each topic row.
- **Course data.** Chapters, topics and videos are datatypes. A chapter's gradient is taken from a table of six presets.
- **String helpers.** Video titles are decoded by two global replaces, in order. The markdown `code` renderer reads the language from the class name, and drops one trailing newline from block code. Chapter numbers are zero-padded.
- **Course-creation dialog.** It holds a form record that each input updates one field at a time. On submit, an ordered chain of guards decides whether a generation request is built. A loading flag is raised while generation runs.

Modules follow the source files:

- `CourseTypes` models `types.ts`.
- `ProgressMap` holds the topic key and the record operations that both accordion components use.
- `ChapterAccordionItem`, `CourseAccordion`, `VideoSection`, `MarkdownContent` and `AddNewCourseDialog` each model the file of the same name.
- `Decimal` (how numbers are written as decimal strings) and `Wrappers` (an `Option` type) are helpers.

State that the source updates in place is modelled as classes:

- `CourseAccordionState`: the progress record, the loading flag and the saving slot.
- `VideoPanel`: the selected video.
- `CourseDialog`: the form and the loading flag.

The model takes the outcome of every network request as a parameter. The same goes for JavaScript's `Number(...)` and the new course id.

Two facts about the progress record shape the model:

- The progress record is not updated optimistically. It changes only after the awaited POST has succeeded (`CourseAccordion.tsx:82-90`). If the save fails, the record is left as it was.
- `completedCount` is the number of keys in the record (`CourseAccordion.tsx:36`). That includes keys whose value is `false` and keys of topics the course does not have. Only a fetched record can contain such keys. Toggles write only `true` values (`ProgressMap.ToggledKeepsOnlyCompletedEntries`).

## Model

| member | source | states |
|---|---|---|
| `Decimal.NatToString` | app/course/_components/course-accordion/CourseAccordion.tsx:68 | an index is written as at least one decimal digit, with no leading zero |
| `Decimal.DigitsValueOfNatToString` | app/course/_components/course-accordion/ChapterAccordionItem.tsx:64 | reading the decimal rendering back gives the number rendered |
| `Decimal.NatToStringInjective` | app/course/_components/course-accordion/CourseAccordion.tsx:68 | two numbers have the same rendering iff they are equal |
| `Decimal.DigitsValueLeadingZeros` | app/course/_components/course-accordion/ChapterAccordionItem.tsx:64 | zeros padded in front of a digit string do not change its value |
| `CourseTypes.TruncatedRemainder` | app/course/_components/course-accordion/types.ts:36 | JavaScript `%`: the remainder is strictly between -6 and 6 and takes the dividend's sign; it equals the Euclidean remainder for non-negative indices, and for negative ones it is 0 on a multiple of six and otherwise the Euclidean remainder minus six |
| `CourseTypes.GetGradient` | app/course/_components/course-accordion/types.ts:36 | a non-negative index selects preset `index mod 6`, which is always in the table; a negative index gives `undefined` unless it is a multiple of six, and a negative multiple of six selects the first preset |
| `CourseTypes.GetGradientPeriodic` | app/course/_components/course-accordion/types.ts:36 | indices six apart get the same gradient |
| `CourseTypes.ChapterGradientsDistinct` | app/course/_components/course-accordion/types.ts:27-34 | the six presets are pairwise different strings |
| `CourseTypes.GetGradientSameIff` | app/course/_components/course-accordion/types.ts:27-36 | for non-negative indices, the gradients are equal iff the indices agree modulo six |
| `CourseTypes.GetGradientNegativeExamples` | app/course/_components/course-accordion/types.ts:36 | index -1 gives no preset, and index -6 gives the first preset |
| `ProgressMap.TopicKey` | app/course/_components/course-accordion/CourseAccordion.tsx:68 | the key's length is both renderings plus one, and its only dash sits right after the chapter digits |
| `ProgressMap.TopicKeyReadsBack` | app/course/_components/course-accordion/CourseAccordion.tsx:68 | the characters before the dash are digits reading as the chapter index, and those after it digits reading as the topic index |
| `ProgressMap.TopicKeyInjective` | app/course/_components/course-accordion/CourseAccordion.tsx:68 | two (chapter, topic) pairs have the same key iff they are the same pair |
| `ProgressMap.IsCompleted` | app/course/_components/course-accordion/CourseAccordion.tsx:69 | `!!completedTopics[key]`: a key missing from the record reads as not completed; `ToggledSize` and `CompletedInChapter` state how it drives the counts |
| `ProgressMap.SetCompletion` | app/course/_components/course-accordion/CourseAccordion.tsx:82-90 | marking complete inserts `key -> true`, marking incomplete deletes the key, and every other key and value is unchanged |
| `ProgressMap.Toggled` | app/course/_components/course-accordion/CourseAccordion.tsx:69-90 | a truthy entry is removed and anything else becomes `true`, so the key's completion flips; every other key and value is unchanged |
| `ProgressMap.ToggleTwiceRestores` | app/course/_components/course-accordion/CourseAccordion.tsx:82-90 | if the key is absent or `true`, two toggles give back the original record |
| `ProgressMap.ToggleTwiceDropsFalseEntry` | app/course/_components/course-accordion/CourseAccordion.tsx:82-90 | if the key holds `false`, two toggles delete it, so the original record is not restored |
| `ProgressMap.ToggledSize` | app/course/_components/course-accordion/CourseAccordion.tsx:36 | a toggle removes one key if the topic was completed, adds one if the key was absent, and otherwise keeps the key count |
| `ProgressMap.ToggledKeepsOnlyCompletedEntries` | app/course/_components/course-accordion/CourseAccordion.tsx:82-90 | toggles keep a record whose entries are all `true` in that shape |
| `ProgressMap.CompletedInChapter` | app/course/_components/course-accordion/CourseAccordion.tsx:106-117 | the per-chapter completed count is at most the topic count, and equals it iff every topic index below it has a truthy key |
| `ProgressMap.CompletedInChapterCountsKeys` | app/course/_components/course-accordion/CourseAccordion.tsx:111 | the per-chapter count equals the number of that chapter's completed keys, and those keys are all in the record |
| `ChapterAccordionItem.TopicsVideoCountIsAllVideos` | app/course/_components/course-accordion/ChapterAccordionItem.tsx:40-43 | `videoCount` equals the number of videos listed under the topics, with a missing list counting 0 |
| `ChapterAccordionItem.TopicsVideoCount` | app/course/_components/course-accordion/ChapterAccordionItem.tsx:40-43 | the reduce over the topics is 0 iff no topic lists a video; `TopicsVideoCountIsAllVideos` says it counts every listed video |
| `ChapterAccordionItem.VideoCount` | app/course/_components/course-accordion/ChapterAccordionItem.tsx:40-43 | a chapter's `videoCount` is the number of videos listed under its topics |
| `ChapterAccordionItem.TopicsVideoCountAppend` | app/course/_components/course-accordion/ChapterAccordionItem.tsx:40-43 | the video count of two topic lists joined together is the sum of their counts |
| `ChapterAccordionItem.IsChapterComplete` | app/course/_components/course-accordion/ChapterAccordionItem.tsx:45 | a complete chapter has at least one topic |
| `ChapterAccordionItem.ProgressOf` | app/course/_components/course-accordion/CourseAccordion.tsx:107 | a chapter's total is its topic count, and its completed count never exceeds the total |
| `ChapterAccordionItem.ChapterCompleteIffAllTopicsCompleted` | app/course/_components/course-accordion/ChapterAccordionItem.tsx:45 | a chapter is complete iff it has topics and every topic row shows as completed |
| `ChapterAccordionItem.TopicShownCompleted` | app/course/_components/course-accordion/ChapterAccordionItem.tsx:157 | a topic row shows as completed iff it adds one to its chapter's completed count; `ToggleChangesOnlyThatTopic` says how a toggle moves it |
| `ChapterAccordionItem.ToggleChangesOnlyThatTopic` | app/course/_components/course-accordion/ChapterAccordionItem.tsx:157 | a toggle flips the completed flag of its own topic row, and no other row in any chapter changes |
| `ChapterAccordionItem.TopicIsSaving` | app/course/_components/course-accordion/ChapterAccordionItem.tsx:159 | no row shows as saving when the slot is empty; `AtMostOneTopicSaving` says at most one row does otherwise |
| `ChapterAccordionItem.AtMostOneTopicSaving` | app/course/_components/course-accordion/ChapterAccordionItem.tsx:159 | at most one topic row (chapter and topic) shows as saving, and none does when the slot is empty |
| `ChapterAccordionItem.PadStart` | app/course/_components/course-accordion/ChapterAccordionItem.tsx:64 | `padStart`: the result is as long as the width or the input, whichever is longer, ends with the input and starts with fill characters |
| `ChapterAccordionItem.BadgeNumber` | app/course/_components/course-accordion/ChapterAccordionItem.tsx:64 | the badge is digits reading as chapterIndex+1; a number below 10 is exactly two characters with a leading `0`, any other is written unpadded |
| `ChapterAccordionItem.BadgeNumberExamples` | app/course/_components/course-accordion/ChapterAccordionItem.tsx:64 | chapter 0 shows `01` and chapter 9 shows `10` |
| `ChapterAccordionItem.StatusLabel` | app/course/_components/course-accordion/ChapterAccordionItem.tsx:114-128 | "Ready to Learn" iff not enrolled, "✓ Completed" iff enrolled and complete, "In Progress" iff enrolled and not complete |
| `CourseAccordion.TotalTopicsCountsAllTopics` | app/course/_components/course-accordion/CourseAccordion.tsx:30 | `totalTopics` is the number of topics across all chapters |
| `CourseAccordion.TotalTopics` | app/course/_components/course-accordion/CourseAccordion.tsx:30 | `totalTopics` is at least every chapter's topic count, and 0 iff no chapter has a topic; `TotalTopicsCountsAllTopics` says it counts every topic once |
| `CourseAccordion.TotalVideos` | app/course/_components/course-accordion/CourseAccordion.tsx:31-35 | `totalVideos` is at least every chapter's video count, and 0 iff no chapter has a video; `TotalVideosCountsAllVideos` says it counts every video once |
| `CourseAccordion.CompletedCount` | app/course/_components/course-accordion/CourseAccordion.tsx:36 | `completedCount` is 0 iff the record is empty, and at least the number of truthy entries (it also counts `false` entries); `SumChapterCompletedBound` bounds the chapters' counts by it |
| `CourseAccordion.TotalVideosCountsAllVideos` | app/course/_components/course-accordion/CourseAccordion.tsx:31-35 | `totalVideos` is the number of videos across all topics of all chapters, with a missing list counting 0 |
| `CourseAccordion.ProgressPercent` | app/course/_components/course-accordion/CourseAccordion.tsx:37 | 0 when there are no topics; otherwise the completed share in percent rounded half up, and at most 100 when completed does not exceed total |
| `CourseAccordion.SumChapterCompletedBound` | app/course/_components/course-accordion/CourseAccordion.tsx:106-117 | the chapters' completed counts add up to at most `completedCount` |
| `CourseAccordion.CourseAccordionState.constructor` | app/course/_components/course-accordion/CourseAccordion.tsx:20-28 | keeps the props, with `isEnrolled` defaulting to false; starts with an empty record, not loading and nothing saving |
| `CourseAccordion.CourseAccordionState.CanTrackProgress` | app/course/_components/course-accordion/CourseAccordion.tsx:41 | progress is tracked only when the course id is a non-empty string, a user id is present and the user is enrolled (the same guard opens the toggle at `CourseAccordion.tsx:63`) |
| `CourseAccordion.CourseAccordionState.ApplyFetchedProgress` | app/course/_components/course-accordion/CourseAccordion.tsx:40-58 | without tracking nothing changes; otherwise a reply replaces the record (an absent one with `{}`), a failure keeps it, and loading ends false |
| `CourseAccordion.CourseAccordionState.StartToggle` | app/course/_components/course-accordion/CourseAccordion.tsx:61-80 | a request is made iff tracking is possible; without tracking the saving slot is unchanged; otherwise the slot holds the topic key and the request asks for the flipped flag |
| `CourseAccordion.CourseAccordionState.FinishToggle` | app/course/_components/course-accordion/CourseAccordion.tsx:82-100 | on success the requested flag is written into the current record, on failure the record is unchanged; the saving slot is empty afterwards |
| `CourseAccordion.CourseAccordionState.ToggleTopicComplete` | app/course/_components/course-accordion/CourseAccordion.tsx:61-103 | without tracking no request is made and nothing changes; otherwise the record becomes `Toggled` on success and stays the same on failure, and the slot ends empty; all-`true` records stay all-`true` |
| `CourseAccordion.CourseAccordionState.GetChapterProgress` | app/course/_components/course-accordion/CourseAccordion.tsx:106-117 | the loop returns the chapter's topic count and the number of its topics whose key is truthy |
| `VideoSection.ReplaceAll` | app/course/_components/course-accordion/VideoSection.tsx:70 | a global replace never lengthens the text when the replacement is no longer than the pattern, and leaves alone a text that never contains the pattern's first character |
| `VideoSection.DecodeTitle` | app/course/_components/course-accordion/VideoSection.tsx:138 | decoding never lengthens a title, and a title with no `&` is unchanged |
| `VideoSection.DecodeEscapeRoundTrip` | app/course/_components/course-accordion/VideoSection.tsx:70 | decoding undoes the escaping of `&` as `&amp;` and of `'` as `&#39;` |
| `VideoSection.DecodeIsSinglePass` | app/course/_components/course-accordion/VideoSection.tsx:70 | `&amp;#39;` decodes to `&#39;`, not `'`; decoding that result again would give `'` |
| `VideoSection.CountLabel` | app/course/_components/course-accordion/VideoSection.tsx:36 | the label is "video" iff there is exactly one video, and "videos" otherwise |
| `VideoSection.VideoPanel.constructor` | app/course/_components/course-accordion/VideoSection.tsx:13 | no video is selected at first |
| `VideoSection.VideoPanel.SelectVideo` | app/course/_components/course-accordion/VideoSection.tsx:84-117 | clicking a card selects its video; afterwards exactly the cards with the same video id are highlighted |
| `VideoSection.VideoPanel.View` | app/course/_components/course-accordion/VideoSection.tsx:15-138 | a missing or empty list shows nothing; otherwise the count and its label, a now-playing title iff a video is selected, and it is the selected video's decoded title, and one card per video in order with its decoded title, highlighted iff its id is the selected one (none with no selection) |
| `MarkdownContent.WordRun` | app/course/_components/course-accordion/MarkdownContent.tsx:105 | the greedy `\w+`: a prefix made only of word characters, followed by a non-word character or the end |
| `MarkdownContent.FindLanguageFrom` | app/course/_components/course-accordion/MarkdownContent.tsx:105 | finds the leftmost position where `language-` is followed by a word character, and reports none only when no such position exists |
| `MarkdownContent.MatchLanguage` | app/course/_components/course-accordion/MarkdownContent.tsx:105 | there is no match iff no `language-` is followed by a word character; a match is the non-empty word run after the leftmost such occurrence |
| `MarkdownContent.StripTrailingNewline` | app/course/_components/course-accordion/MarkdownContent.tsx:118 | exactly one trailing `\n` is removed if present, and the text is otherwise unchanged |
| `MarkdownContent.StripTrailingNewlineExample` | app/course/_components/course-accordion/MarkdownContent.tsx:118 | `a\n\n` becomes `a\n` |
| `MarkdownContent.BadgeLanguage` | app/course/_components/course-accordion/MarkdownContent.tsx:24 | the badge is never empty; an empty language shows as "code", and any other is shown as is |
| `MarkdownContent.HighlighterLanguage` | app/course/_components/course-accordion/MarkdownContent.tsx:38 | the highlighter language is never empty; an empty language becomes "text", and any other is passed on as is |
| `MarkdownContent.RenderCode` | app/course/_components/course-accordion/MarkdownContent.tsx:104-120 | inline iff the class name (`""` when absent) has no `language-` followed by a word character; inline code keeps its children; a block has a non-empty language and its text without one trailing newline |
| `MarkdownContent.BlockNeedsNoLanguageFallback` | app/course/_components/course-accordion/MarkdownContent.tsx:117 | a code block's language is never empty, so neither the "code" nor the "text" fallback fires for it |
| `MarkdownContent.AbsentClassNameIsInline` | app/course/_components/course-accordion/MarkdownContent.tsx:105-106 | a code element with no class name renders inline |
| `MarkdownContent.LanguageExamples` | app/course/_components/course-accordion/MarkdownContent.tsx:105 | `language-js` gives `js`; `language- language-py x` skips the bare prefix and gives `py` |
| `AddNewCourseDialog.ApplyInput` | app/components/AddNewCourseDialog.tsx:51-56 | the named field takes the new value, and every other field keeps its own |
| `AddNewCourseDialog.ApplyInputLastWriteWins` | app/components/AddNewCourseDialog.tsx:51-56 | writing one field twice is the same as writing only the second value |
| `AddNewCourseDialog.ValidateForm` | app/components/AddNewCourseDialog.tsx:63-83 | the guards run in order and report only the first failure: the missing-fields message iff a required field is empty; the invalid-number message iff the fields are filled and chapters is NaN or ≤ 0; the maximum message iff it is positive and > 6; generation iff all pass |
| `AddNewCourseDialog.ValidationIgnoresOptionalFields` | app/components/AddNewCourseDialog.tsx:63-85 | `includeVideo` and the form's `courseId` never affect the decision |
| `AddNewCourseDialog.FractionalChapterCountAccepted` | app/components/AddNewCourseDialog.tsx:74-83 | a filled form whose chapters parse to 2.5 passes every guard |
| `AddNewCourseDialog.CourseDialog.constructor` | app/components/AddNewCourseDialog.tsx:39-49 | starts with every text field empty, `includeVideo` false and not loading |
| `AddNewCourseDialog.CourseDialog.OnHandleInputChange` | app/components/AddNewCourseDialog.tsx:51-56 | the form becomes `ApplyInput` of the old form |
| `AddNewCourseDialog.CourseDialog.OnGenerate` | app/components/AddNewCourseDialog.tsx:88-121 | a request is built iff the user has an email; it carries the form fields unchanged, the new course id and `noOfChapters` = the parsed chapters; loading ends false on every path |
| `AddNewCourseDialog.CourseDialog.OnSubmit` | app/components/AddNewCourseDialog.tsx:58-86 | the decision is `ValidateForm`; a rejection builds no request and leaves loading alone; a request carries the parsed chapter count, which lies in (0, 6] |

## Left out

- Rendering is not modelled. That covers JSX, CSS class strings, motion and animation, accordion and dialog widgets, icons, toasts and console logging. `TopicAccordionItem.tsx` is only rendering: it forwards its own indices to the toggle.
- Network requests are not modelled. The progress fetch, the progress save and the course-generation POST are replaced by their outcomes, which are parameters. `app/api/courseApi.ts`, `app/api/aiToolsApi.ts`, `app/api/thinkbotApi.ts` and `app/api/api_url.ts` are not part of this model. The same goes for `app/context/UserContext.tsx`, whose user email is a parameter.
- CourseAccordion.ProgressPercent: uses exact rational arithmetic, not an IEEE double followed by `Math.round`, because floating point is not modelled. Near a tie the two can differ by one: 57 of 200 is exactly 28.5 and rounds to 29, while the double product gives 28.499999999999996 and rounds to 28.
- AddNewCourseDialog.ValidateForm: `Number(...)` is a parameter (`parse`) returning NaN, a finite real or an infinity. JavaScript's string-to-number grammar is not modelled.
- AddNewCourseDialog.CourseDialog.OnGenerate: what happens after the request is not modelled. That covers the success toast, navigation to the edit page, and how the error message is chosen (`AddNewCourseDialog.tsx:110-117`). The course id comes from uuid generation, which is a parameter.
- CourseTypes.GetGradient: only integer indices are modelled. Callers always pass a chapter's array index.
- CourseTypes.TruthyUserId: a numeric user id is an integer. NaN and fractional ids are not modelled.
- `ch.topics?.length || 0` (`CourseAccordion.tsx:30`, `:107`): a `Chapter` always has its topic list (`types.ts:14-17`), so the missing-list fallback cannot happen in the model.
- Toggle timing: `StartToggle` and `FinishToggle` are separate methods, so a second toggle can start before the first settles. The saving slot then holds the second key, and the first `FinishToggle` empties it. The model allows this interleaving. It does not model React's batching or re-rendering.
- The copy-to-clipboard button and its timer (`MarkdownContent.tsx:14-18`) are not modelled. Neither is the markdown and syntax-highlighting library: `RenderCode` stands for the `code` renderer alone.
- Static pages, the sidebar and navbar, the footer, the icon and configuration files are not part of this model.
