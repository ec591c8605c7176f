/** The progress record both accordion components read: a map from topic key
    `"<chapterIndex>-<topicIndex>"` to a completion flag, and the per-chapter
    count derived from it. */
module ProgressMap {
  import opened Decimal

  /** `Record<string, boolean>`: absent keys read as `undefined` (falsy). */
  type ProgressRecord = map<string, bool>

  /** The topic key: the chapter index, a dash, the topic index. */
  function TopicKey(chapterIndex: nat, topicIndex: nat): (key: string)
    ensures |key| == |NatToString(chapterIndex)| + 1 + |NatToString(topicIndex)|
    ensures forall i :: 0 <= i < |key| ==> (key[i] == '-' <==> i == |NatToString(chapterIndex)|)
  {
    NatToString(chapterIndex) + "-" + NatToString(topicIndex)
  }

  /** A key reads back as its indices: the digits before the dash are the
      chapter index and the digits after it the topic index. */
  lemma TopicKeyReadsBack(chapterIndex: nat, topicIndex: nat)
    ensures var key, dash := TopicKey(chapterIndex, topicIndex), |NatToString(chapterIndex)|;
      && AllDigits(key[..dash]) && DigitsValue(key[..dash]) == chapterIndex
      && AllDigits(key[dash + 1..]) && DigitsValue(key[dash + 1..]) == topicIndex
  {
    var chapterDigits, topicDigits := NatToString(chapterIndex), NatToString(topicIndex);
    var key := chapterDigits + "-" + topicDigits;
    assert key == TopicKey(chapterIndex, topicIndex);
    assert key[..|chapterDigits|] == chapterDigits;
    assert key[|chapterDigits| + 1..] == topicDigits;
    DigitsValueOfNatToString(chapterIndex);
    DigitsValueOfNatToString(topicIndex);
  }

  /** Distinct (chapter, topic) pairs have distinct keys. */
  lemma TopicKeyInjective(c1: nat, t1: nat, c2: nat, t2: nat)
    ensures TopicKey(c1, t1) == TopicKey(c2, t2) <==> c1 == c2 && t1 == t2
  {
    if TopicKey(c1, t1) == TopicKey(c2, t2) {
      var a, b, c, d := NatToString(c1), NatToString(t1), NatToString(c2), NatToString(t2);
      var k := TopicKey(c1, t1);
      // The single dash sits right after the chapter digits in both renderings.
      assert k[|a|] == '-';
      assert |a| == |c|;
      assert a == k[..|a|] == c;
      assert b == k[|a| + 1..] == d;
      NatToStringInjective(c1, c2);
      NatToStringInjective(t1, t2);
    }
  }

  /** `!!completedTopics[key]`. */
  predicate IsCompleted(m: ProgressRecord, key: string)
    ensures key !in m ==> !IsCompleted(m, key)
  {
    key in m && m[key]
  }

  /** The state update after a successful save: insert `key -> true` when
      marking complete, delete the key when marking incomplete. */
  function SetCompletion(m: ProgressRecord, key: string, completed: bool): (r: ProgressRecord)
    ensures IsCompleted(r, key) == completed
    ensures key in r <==> completed
    ensures forall k :: k != key ==> (k in r <==> k in m)
    ensures forall k :: k in r && k != key ==> r[k] == m[k]
  {
    if completed then m[key := true] else m - {key}
  }

  /** The toggle: a truthy entry is removed, anything else becomes `true`. */
  function Toggled(m: ProgressRecord, key: string): (r: ProgressRecord)
    ensures IsCompleted(r, key) == !IsCompleted(m, key)
    ensures IsCompleted(m, key) ==> key !in r
    ensures !IsCompleted(m, key) ==> key in r && r[key]
    ensures forall k :: k != key ==> (k in r <==> k in m)
    ensures forall k :: k in r && k != key ==> r[k] == m[k]
  {
    SetCompletion(m, key, !IsCompleted(m, key))
  }

  /** Toggling the same key twice restores the record when the key was absent or `true`. */
  lemma ToggleTwiceRestores(m: ProgressRecord, key: string)
    requires key in m ==> m[key]
    ensures Toggled(Toggled(m, key), key) == m
  {
    var r := Toggled(Toggled(m, key), key);
    assert forall k :: k in r <==> k in m;
  }

  /** A stale `false` entry is not restored: two toggles delete it. */
  lemma ToggleTwiceDropsFalseEntry(m: ProgressRecord, key: string)
    requires key in m && !m[key]
    ensures Toggled(Toggled(m, key), key) == m - {key}
    ensures Toggled(Toggled(m, key), key) != m
  {
    var r := Toggled(Toggled(m, key), key);
    assert key !in r;
    assert forall k :: k in r <==> k in m - {key};
  }

  /** How a toggle moves the number of keys. */
  lemma ToggledSize(m: ProgressRecord, key: string)
    ensures |Toggled(m, key)| == if IsCompleted(m, key) then |m| - 1
                                 else if key in m then |m|
                                 else |m| + 1
  {
    var r := Toggled(m, key);
    if IsCompleted(m, key) {
      assert r.Keys == m.Keys - {key};
    } else if key in m {
      assert r.Keys == m.Keys;
    } else {
      assert r.Keys == m.Keys + {key};
    }
  }

  /** Every entry is `true`: what the record looks like when only toggles have written it. */
  predicate OnlyCompletedEntries(m: ProgressRecord) {
    forall k :: k in m ==> m[k]
  }

  lemma ToggledKeepsOnlyCompletedEntries(m: ProgressRecord, key: string)
    requires OnlyCompletedEntries(m)
    ensures OnlyCompletedEntries(Toggled(m, key))
  {
  }

  /** `{ completed, total }` as `getChapterProgress` returns it. */
  datatype ChapterProgress = ChapterProgress(completed: nat, total: nat)

  /** The number of topic indices below `n` of chapter `chapterIndex` whose key is truthy. */
  function CompletedInChapter(m: ProgressRecord, chapterIndex: nat, n: nat): (c: nat)
    ensures c <= n
    ensures c == n <==> forall t :: 0 <= t < n ==> IsCompleted(m, TopicKey(chapterIndex, t))
  {
    if n == 0 then 0
    else CompletedInChapter(m, chapterIndex, n - 1)
         + (if IsCompleted(m, TopicKey(chapterIndex, n - 1)) then 1 else 0)
  }

  /** The keys of the completed topics below `n` of one chapter. */
  ghost function CompletedTopicKeys(m: ProgressRecord, chapterIndex: nat, n: nat): set<string> {
    set t | 0 <= t < n && IsCompleted(m, TopicKey(chapterIndex, t)) :: TopicKey(chapterIndex, t)
  }

  /** The per-chapter count is the size of that chapter's set of completed keys. */
  lemma {:induction false} CompletedInChapterCountsKeys(m: ProgressRecord, chapterIndex: nat, n: nat)
    ensures CompletedInChapter(m, chapterIndex, n) == |CompletedTopicKeys(m, chapterIndex, n)|
    ensures CompletedTopicKeys(m, chapterIndex, n) <= m.Keys
  {
    if n > 0 {
      CompletedInChapterCountsKeys(m, chapterIndex, n - 1);
      var prev := CompletedTopicKeys(m, chapterIndex, n - 1);
      var key := TopicKey(chapterIndex, n - 1);
      forall t | 0 <= t < n - 1
        ensures TopicKey(chapterIndex, t) != key
      {
        TopicKeyInjective(chapterIndex, t, chapterIndex, n - 1);
      }
      if IsCompleted(m, key) {
        assert CompletedTopicKeys(m, chapterIndex, n) == prev + {key};
      } else {
        assert CompletedTopicKeys(m, chapterIndex, n) == prev;
      }
    }
  }
}
