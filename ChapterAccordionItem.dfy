/** What one chapter row of the accordion derives from its props: the video
    count, completeness, the per-topic completed and saving flags, the
    zero-padded badge number and the status label. */
module ChapterAccordionItem {
  import opened Wrappers
  import opened Decimal
  import opened CourseTypes
  import opened ProgressMap

  /** `t.youtubeVideos?.length || 0`. */
  function VideoListLength(t: Topic): nat {
    match t.youtubeVideos
    case None => 0
    case Some(vs) => |vs|
  }

  /** The reduce over a topic list adding each topic's video-list length. */
  function TopicsVideoCount(topics: seq<Topic>): (count: nat)
    ensures count == 0 <==> forall i :: 0 <= i < |topics| ==> VideoListLength(topics[i]) == 0
  {
    if topics == [] then 0
    else TopicsVideoCount(topics[..|topics| - 1]) + VideoListLength(topics[|topics| - 1])
  }

  /** `videoCount` of a chapter. */
  function VideoCount(chapter: Chapter): (count: nat)
    ensures count == |AllVideos(chapter.topics)|
  {
    TopicsVideoCountIsAllVideos(chapter.topics);
    TopicsVideoCount(chapter.topics)
  }

  /** Every video of the topics, in order; a missing list contributes nothing. */
  function AllVideos(topics: seq<Topic>): seq<YouTubeVideo> {
    if topics == [] then []
    else AllVideos(topics[..|topics| - 1]) + topics[|topics| - 1].youtubeVideos.GetOr([])
  }

  /** The video count is the number of videos listed under the topics. */
  lemma {:induction false} TopicsVideoCountIsAllVideos(topics: seq<Topic>)
    ensures TopicsVideoCount(topics) == |AllVideos(topics)|
  {
    if topics != [] {
      TopicsVideoCountIsAllVideos(topics[..|topics| - 1]);
    }
  }

  /** The video count of a concatenation is the sum of the parts' counts. */
  lemma {:induction false} TopicsVideoCountAppend(a: seq<Topic>, b: seq<Topic>)
    ensures TopicsVideoCount(a + b) == TopicsVideoCount(a) + TopicsVideoCount(b)
    decreases |b|
  {
    if b != [] {
      assert (a + b)[..|a + b| - 1] == a + b[..|b| - 1];
      TopicsVideoCountAppend(a, b[..|b| - 1]);
    } else {
      assert a + b == a;
    }
  }

  /** `completed === total && total > 0`. */
  function IsChapterComplete(progress: ChapterProgress): (complete: bool)
    ensures complete ==> progress.total > 0
  {
    progress.completed == progress.total && progress.total > 0
  }

  /** The progress `getChapterProgress` reports for a chapter: its topic count
      and the number of its completed topics. */
  function ProgressOf(m: ProgressRecord, chapterIndex: nat, chapter: Chapter): (p: ChapterProgress)
    ensures p.completed <= p.total == |chapter.topics|
  {
    ChapterProgress(CompletedInChapter(m, chapterIndex, |chapter.topics|), |chapter.topics|)
  }

  /** A chapter is complete exactly when it has topics and every one of them is
      completed; in particular a chapter without topics never is. */
  lemma ChapterCompleteIffAllTopicsCompleted(m: ProgressRecord, chapterIndex: nat, chapter: Chapter)
    ensures IsChapterComplete(ProgressOf(m, chapterIndex, chapter))
        <==> |chapter.topics| > 0 && forall t :: 0 <= t < |chapter.topics| ==> TopicShownCompleted(m, chapterIndex, t)
  {
    var n := |chapter.topics|;
    var p := ProgressOf(m, chapterIndex, chapter);
    assert CompletedInChapter(m, chapterIndex, n) == n
       <==> forall t :: 0 <= t < n ==> IsCompleted(m, TopicKey(chapterIndex, t));
    if forall t :: 0 <= t < n ==> TopicShownCompleted(m, chapterIndex, t) {
      forall t | 0 <= t < n ensures IsCompleted(m, TopicKey(chapterIndex, t)) {
        assert TopicShownCompleted(m, chapterIndex, t);
      }
    }
  }

  /** `isCompleted` of a topic row: the record holds a truthy entry for its key. */
  predicate TopicShownCompleted(m: ProgressRecord, chapterIndex: nat, topicIndex: nat)
    ensures TopicShownCompleted(m, chapterIndex, topicIndex)
        <==> CompletedInChapter(m, chapterIndex, topicIndex + 1) == CompletedInChapter(m, chapterIndex, topicIndex) + 1
  {
    IsCompleted(m, TopicKey(chapterIndex, topicIndex))
  }

  /** Toggling one topic flips its own row and leaves every other row, in any chapter, as it was. */
  lemma ToggleChangesOnlyThatTopic(m: ProgressRecord, chapterIndex: nat, topicIndex: nat, c: nat, t: nat)
    ensures TopicShownCompleted(Toggled(m, TopicKey(chapterIndex, topicIndex)), c, t)
         == if c == chapterIndex && t == topicIndex then !TopicShownCompleted(m, c, t)
            else TopicShownCompleted(m, c, t)
  {
    TopicKeyInjective(chapterIndex, topicIndex, c, t);
  }

  /** `isSaving` of a topic row: its key is the one being saved. */
  predicate TopicIsSaving(savingTopic: Option<string>, chapterIndex: nat, topicIndex: nat)
    ensures savingTopic == None ==> !TopicIsSaving(savingTopic, chapterIndex, topicIndex)
  {
    savingTopic == Some(TopicKey(chapterIndex, topicIndex))
  }

  /** At most one topic row, across all chapters, shows as saving, and none does when nothing is being saved. */
  lemma AtMostOneTopicSaving(savingTopic: Option<string>, c1: nat, t1: nat, c2: nat, t2: nat)
    requires TopicIsSaving(savingTopic, c1, t1)
    ensures TopicIsSaving(savingTopic, c2, t2) <==> c1 == c2 && t1 == t2
    ensures savingTopic != None
  {
    TopicKeyInjective(c1, t1, c2, t2);
  }

  /** `String.prototype.padStart` with a one-character fill: `fill` repeated in
      front of `s` up to `width` characters; a longer `s` is returned as is. */
  function PadStart(s: string, width: nat, fill: char): (r: string)
    ensures |r| == if |s| < width then width else |s|
    ensures r[|r| - |s|..] == s
    ensures forall i :: 0 <= i < |r| - |s| ==> r[i] == fill
  {
    if |s| < width then
      var padding := seq(width - |s|, _ => fill);
      assert (padding + s)[width - |s|..] == s;
      padding + s
    else s
  }

  /** The number on a chapter's badge: `String(chapterIndex + 1).padStart(2, "0")`. */
  function BadgeNumber(chapterIndex: nat): (s: string)
    ensures |s| == if chapterIndex + 1 < 10 then 2 else |NatToString(chapterIndex + 1)|
    ensures AllDigits(s)
    ensures DigitsValue(s) == chapterIndex + 1
    ensures chapterIndex + 1 < 10 ==> s[0] == '0'
    ensures chapterIndex + 1 >= 10 ==> s == NatToString(chapterIndex + 1)
  {
    var digits := NatToString(chapterIndex + 1);
    var s := PadStart(digits, 2, '0');
    DigitsValueOfNatToString(chapterIndex + 1);
    DigitsValueLeadingZeros(s[..|s| - |digits|], digits);
    assert s == s[..|s| - |digits|] + digits;
    s
  }

  lemma BadgeNumberExamples()
    ensures BadgeNumber(0) == "01"
    ensures BadgeNumber(9) == "10"
  {
    assert NatToString(1) == "1";
    assert PadStart("01", 2, '0') == "01";
    assert PadStart("1", 2, '0') == "01";
  }

  const ReadyToLearn := "Ready to Learn"
  const CompletedLabel := "\U{2713} Completed"
  const InProgress := "In Progress"

  /** The status pill of a chapter row. */
  function StatusLabel(isEnrolled: bool, isChapterComplete: bool): (pill: string)
    ensures pill == ReadyToLearn <==> !isEnrolled
    ensures pill == CompletedLabel <==> isEnrolled && isChapterComplete
    ensures pill == InProgress <==> isEnrolled && !isChapterComplete
  {
    if !isEnrolled then ReadyToLearn
    else if isChapterComplete then CompletedLabel
    else InProgress
  }
}
