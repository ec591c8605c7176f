/** The course accordion's progress bookkeeping: the course-wide counters,
    the per-chapter progress, and the state the accordion keeps (the progress
    record, the loading flag and the topic being saved) with the operations
    that change it. The progress requests themselves are outside the model:
    their outcome is a parameter. */
module CourseAccordion {
  import opened Wrappers
  import opened CourseTypes
  import opened ProgressMap
  import opened ChapterAccordionItem

  /** `totalTopics`: the reduce adding each chapter's topic count. */
  function TotalTopics(chapters: seq<Chapter>): (total: nat)
    ensures forall i :: 0 <= i < |chapters| ==> |chapters[i].topics| <= total
    ensures total == 0 <==> forall i :: 0 <= i < |chapters| ==> chapters[i].topics == []
  {
    if chapters == [] then 0
    else TotalTopics(chapters[..|chapters| - 1]) + |chapters[|chapters| - 1].topics|
  }

  /** `totalVideos`: the reduce adding each chapter's video count. */
  function TotalVideos(chapters: seq<Chapter>): (total: nat)
    ensures forall i :: 0 <= i < |chapters| ==> VideoCount(chapters[i]) <= total
    ensures total == 0 <==> forall i :: 0 <= i < |chapters| ==> VideoCount(chapters[i]) == 0
  {
    if chapters == [] then 0
    else TotalVideos(chapters[..|chapters| - 1]) + VideoCount(chapters[|chapters| - 1])
  }

  /** All topics of the course, chapter after chapter. */
  function AllTopics(chapters: seq<Chapter>): seq<Topic> {
    if chapters == [] then []
    else AllTopics(chapters[..|chapters| - 1]) + chapters[|chapters| - 1].topics
  }

  /** The topic total counts every topic of every chapter once. */
  lemma {:induction false} TotalTopicsCountsAllTopics(chapters: seq<Chapter>)
    ensures TotalTopics(chapters) == |AllTopics(chapters)|
  {
    if chapters != [] {
      TotalTopicsCountsAllTopics(chapters[..|chapters| - 1]);
    }
  }

  /** The video total counts every video listed under any topic of the course once. */
  lemma {:induction false} TotalVideosCountsAllVideos(chapters: seq<Chapter>)
    ensures TotalVideos(chapters) == |AllVideos(AllTopics(chapters))|
  {
    if chapters != [] {
      var init := chapters[..|chapters| - 1];
      TotalVideosCountsAllVideos(init);
      TopicsVideoCountAppend(AllTopics(init), chapters[|chapters| - 1].topics);
      TopicsVideoCountIsAllVideos(AllTopics(chapters));
      TopicsVideoCountIsAllVideos(AllTopics(init));
    }
  }

  /** `completedCount`: the number of keys in the record, whatever their values. */
  function CompletedCount(m: ProgressRecord): (count: nat)
    ensures count == 0 <==> m == map[]
    ensures |set key | key in m && IsCompleted(m, key)| <= count
  {
    SubsetSize((set key | key in m && IsCompleted(m, key)), m.Keys);
    |m|
  }

  /** `progressPercent`: the completed share of all topics in percent, rounded
      half up, and 0 when the course has no topics. */
  function ProgressPercent(completedCount: nat, totalTopics: nat): (percent: nat)
    ensures totalTopics == 0 ==> percent == 0
    ensures totalTopics > 0 ==>
      2 * totalTopics * percent <= 200 * completedCount + totalTopics < 2 * totalTopics * (percent + 1)
    ensures completedCount <= totalTopics ==> percent <= 100
  {
    if totalTopics > 0 then
      RoundedShareBounds(completedCount, totalTopics);
      (200 * completedCount + totalTopics) / (2 * totalTopics)
    else 0
  }

  /** Integer division by `2t` of `200c + t` rounds `100c/t` half up. */
  lemma RoundedShareBounds(completedCount: nat, totalTopics: nat)
    requires totalTopics > 0
    ensures var percent := (200 * completedCount + totalTopics) / (2 * totalTopics);
      && 2 * totalTopics * percent <= 200 * completedCount + totalTopics < 2 * totalTopics * (percent + 1)
      && (completedCount <= totalTopics ==> percent <= 100)
  {
    var x, y := 200 * completedCount + totalTopics, 2 * totalTopics;
    var q, r := x / y, x % y;
    assert x == y * q + r && 0 <= r < y;
    assert y * (q + 1) == y * q + y;
    if completedCount <= totalTopics && q > 100 {
      assert y * q >= y * 101 by { MultiplyMonotone(y, 101, q); }
      assert false;
    }
  }

  lemma MultiplyMonotone(k: nat, a: nat, b: nat)
    requires a <= b
    ensures k * a <= k * b
  {
  }

  /** The sum of the completed counts of the first `k` chapters. */
  function SumChapterCompleted(m: ProgressRecord, chapters: seq<Chapter>, k: nat): nat
    requires k <= |chapters|
  {
    if k == 0 then 0
    else SumChapterCompleted(m, chapters, k - 1) + CompletedInChapter(m, k - 1, |chapters[k - 1].topics|)
  }

  /** The completed keys of the first `k` chapters. */
  ghost function CourseCompletedKeys(m: ProgressRecord, chapters: seq<Chapter>, k: nat): set<string>
    requires k <= |chapters|
  {
    if k == 0 then {}
    else CourseCompletedKeys(m, chapters, k - 1) + CompletedTopicKeys(m, k - 1, |chapters[k - 1].topics|)
  }

  /** Two different chapters never share a completed key. */
  lemma CompletedTopicKeysDisjoint(m: ProgressRecord, c1: nat, n1: nat, c2: nat, n2: nat)
    requires c1 != c2
    ensures CompletedTopicKeys(m, c1, n1) * CompletedTopicKeys(m, c2, n2) == {}
  {
    forall key | key in CompletedTopicKeys(m, c1, n1) && key in CompletedTopicKeys(m, c2, n2)
      ensures false
    {
      var t1 :| 0 <= t1 < n1 && IsCompleted(m, TopicKey(c1, t1)) && key == TopicKey(c1, t1);
      var t2 :| 0 <= t2 < n2 && IsCompleted(m, TopicKey(c2, t2)) && key == TopicKey(c2, t2);
      TopicKeyInjective(c1, t1, c2, t2);
    }
  }

  /** The completed keys of the first `k` chapters avoid those of any later chapter. */
  lemma {:induction false} CourseCompletedKeysAvoidLaterChapter(m: ProgressRecord, chapters: seq<Chapter>, k: nat, c: nat, n: nat)
    requires k <= |chapters| && k <= c
    ensures CourseCompletedKeys(m, chapters, k) * CompletedTopicKeys(m, c, n) == {}
  {
    if k > 0 {
      CourseCompletedKeysAvoidLaterChapter(m, chapters, k - 1, c, n);
      CompletedTopicKeysDisjoint(m, k - 1, |chapters[k - 1].topics|, c, n);
    }
  }

  /** The summed chapter counts are the size of the union of the chapters' completed keys. */
  lemma {:induction false} SumChapterCompletedCountsKeys(m: ProgressRecord, chapters: seq<Chapter>, k: nat)
    requires k <= |chapters|
    ensures SumChapterCompleted(m, chapters, k) == |CourseCompletedKeys(m, chapters, k)|
    ensures CourseCompletedKeys(m, chapters, k) <= m.Keys
  {
    if k > 0 {
      var n := |chapters[k - 1].topics|;
      SumChapterCompletedCountsKeys(m, chapters, k - 1);
      CompletedInChapterCountsKeys(m, k - 1, n);
      CourseCompletedKeysAvoidLaterChapter(m, chapters, k - 1, k - 1, n);
      DisjointUnionSize(CourseCompletedKeys(m, chapters, k - 1), CompletedTopicKeys(m, k - 1, n));
    }
  }

  lemma {:induction false} DisjointUnionSize<T>(a: set<T>, b: set<T>)
    requires a * b == {}
    ensures |a + b| == |a| + |b|
    decreases |a|
  {
    if a != {} {
      var x :| x in a;
      DisjointUnionSize(a - {x}, b);
      assert (a - {x}) + b == (a + b) - {x};
    }
  }

  /** Adding up the chapters' completed counts never exceeds `completedCount`. */
  lemma SumChapterCompletedBound(m: ProgressRecord, chapters: seq<Chapter>)
    ensures SumChapterCompleted(m, chapters, |chapters|) <= CompletedCount(m)
  {
    SumChapterCompletedCountsKeys(m, chapters, |chapters|);
    SubsetSize(CourseCompletedKeys(m, chapters, |chapters|), m.Keys);
  }

  lemma {:induction false} SubsetSize<T>(a: set<T>, b: set<T>)
    requires a <= b
    ensures |a| <= |b|
    decreases |b|
  {
    if a != {} {
      var x :| x in a;
      SubsetSize(a - {x}, b - {x});
    }
  }

  /** The body of a save request. */
  datatype SaveRequest = SaveRequest(userId: UserId, courseId: string, chapterIndex: nat, topicIndex: nat, completed: bool)

  /** What the progress fetch on mount came back with. */
  datatype FetchOutcome = Fetched(completedTopics: Option<ProgressRecord>) | FetchFailed

  /** One mounted accordion: its props and the state it keeps. */
  class CourseAccordionState {
    const chapters: seq<Chapter>
    const courseId: Option<string>
    const userId: Option<UserId>
    const isEnrolled: bool

    var completedTopics: ProgressRecord
    var loading: bool
    var savingTopic: Option<string>

    constructor (props: CourseAccordionProps)
      ensures chapters == props.chapters && courseId == props.courseId && userId == props.userId
      ensures isEnrolled == props.isEnrolled.GetOr(false)
      ensures completedTopics == map[] && !loading && savingTopic == None
    {
      chapters, courseId, userId := props.chapters, props.courseId, props.userId;
      isEnrolled := props.isEnrolled.GetOr(false);
      completedTopics, loading, savingTopic := map[], false, None;
    }

    /** Progress is tracked only for an enrolled user with a course id and a user id. */
    predicate CanTrackProgress()
      ensures CanTrackProgress() ==> isEnrolled && courseId.Some? && courseId.value != "" && userId.Some?
    {
      TruthyText(courseId) && TruthyUserId(userId) && isEnrolled
    }

    /** The mount effect once the fetch has settled: a reply replaces the record
        (an absent one by the empty record), a failure keeps it. */
    method ApplyFetchedProgress(outcome: FetchOutcome)
      modifies this`completedTopics, this`loading
      ensures !CanTrackProgress() ==> completedTopics == old(completedTopics) && loading == old(loading)
      ensures CanTrackProgress() ==> !loading
      ensures CanTrackProgress() ==> (completedTopics ==
        match outcome
        case Fetched(record) => record.GetOr(map[])
        case FetchFailed => old(completedTopics))
    {
      if !CanTrackProgress() {
        return;
      }
      loading := true;
      match outcome {
        case Fetched(record) => completedTopics := record.GetOr(map[]);
        case FetchFailed =>
      }
      loading := false;
    }

    /** The first half of a toggle, up to the save request: without tracking
        nothing changes and no request is made; otherwise the topic's key goes
        into the saving slot and the request asks for the flipped flag. */
    method StartToggle(chapterIndex: nat, topicIndex: nat) returns (request: Option<SaveRequest>)
      modifies this`savingTopic
      ensures request.Some? <==> CanTrackProgress()
      ensures !CanTrackProgress() ==> savingTopic == old(savingTopic)
      ensures CanTrackProgress() ==> savingTopic == Some(TopicKey(chapterIndex, topicIndex))
      ensures CanTrackProgress() ==> request == Some(SaveRequest(userId.value, courseId.value,
                chapterIndex, topicIndex, !IsCompleted(completedTopics, TopicKey(chapterIndex, topicIndex))))
    {
      if !CanTrackProgress() {
        return None;
      }
      var topicKey := TopicKey(chapterIndex, topicIndex);
      var isCurrentlyCompleted := IsCompleted(completedTopics, topicKey);
      savingTopic := Some(topicKey);
      request := Some(SaveRequest(userId.value, courseId.value, chapterIndex, topicIndex, !isCurrentlyCompleted));
    }

    /** The second half of a toggle, once the save has settled: on success the
        requested flag is written into the current record; on failure the
        record is kept. Either way the saving slot is cleared. */
    method FinishToggle(request: SaveRequest, saved: bool)
      modifies this`completedTopics, this`savingTopic
      ensures savingTopic == None
      ensures completedTopics == if saved then
                SetCompletion(old(completedTopics), TopicKey(request.chapterIndex, request.topicIndex), request.completed)
              else old(completedTopics)
    {
      if saved {
        completedTopics := SetCompletion(completedTopics, TopicKey(request.chapterIndex, request.topicIndex), request.completed);
      }
      savingTopic := None;
    }

    /** A whole toggle with no other event in between. */
    method ToggleTopicComplete(chapterIndex: nat, topicIndex: nat, saved: bool) returns (request: Option<SaveRequest>)
      modifies this`completedTopics, this`savingTopic
      ensures request.Some? <==> CanTrackProgress()
      ensures !CanTrackProgress() ==> completedTopics == old(completedTopics) && savingTopic == old(savingTopic)
      ensures CanTrackProgress() ==> savingTopic == None
      ensures CanTrackProgress() ==> request.value.completed == !IsCompleted(old(completedTopics), TopicKey(chapterIndex, topicIndex))
      ensures CanTrackProgress() ==> (completedTopics ==
                if saved then Toggled(old(completedTopics), TopicKey(chapterIndex, topicIndex)) else old(completedTopics))
      ensures OnlyCompletedEntries(old(completedTopics)) ==> OnlyCompletedEntries(completedTopics)
    {
      request := StartToggle(chapterIndex, topicIndex);
      if request.Some? {
        FinishToggle(request.value, saved);
      }
    }

    /** `getChapterProgress`: the chapter's topic count, and a loop counting the
        topic indices whose key is truthy. */
    method GetChapterProgress(chapterIndex: nat, chapter: Chapter) returns (progress: ChapterProgress)
      ensures progress == ProgressOf(completedTopics, chapterIndex, chapter)
    {
      var topicsInChapter := |chapter.topics|;
      var completedInChapter := 0;
      for topicIndex := 0 to topicsInChapter
        invariant completedInChapter == CompletedInChapter(completedTopics, chapterIndex, topicIndex)
      {
        if IsCompleted(completedTopics, TopicKey(chapterIndex, topicIndex)) {
          completedInChapter := completedInChapter + 1;
        }
      }
      progress := ChapterProgress(completedInChapter, topicsInChapter);
    }
  }
}
