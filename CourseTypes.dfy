/** The course records shared by the accordion components, and the table of
    gradient presets a chapter's badge is drawn with. */
module CourseTypes {
  import opened Wrappers

  datatype YouTubeVideo = YouTubeVideo(videoId: string, title: string)

  /** A topic always has a title; its text and its video list may be absent. */
  datatype Topic = Topic(topic: string, content: Option<string>, youtubeVideos: Option<seq<YouTubeVideo>>)

  /** A chapter always carries its (possibly empty) list of topics. */
  datatype Chapter = Chapter(chapterName: string, topics: seq<Topic>)

  /** A user id is a string or a number. */
  datatype UserId = TextId(text: string) | NumericId(number: int)

  /** The accordion's props; `isEnrolled` defaults to false when absent. */
  datatype CourseAccordionProps = CourseAccordionProps(
    chapters: seq<Chapter>,
    courseId: Option<string>,
    userId: Option<UserId>,
    isEnrolled: Option<bool>)

  /** JavaScript truthiness of an optional string: present and non-empty. */
  predicate TruthyText(s: Option<string>) {
    s.Some? && s.value != ""
  }

  /** JavaScript truthiness of an optional user id: present, and neither `""` nor `0`. */
  predicate TruthyUserId(u: Option<UserId>) {
    match u
    case None => false
    case Some(TextId(t)) => t != ""
    case Some(NumericId(n)) => n != 0
  }

  /** The six gradient presets, in table order. */
  const ChapterGradients: seq<string> := [
    "from-violet-500 via-purple-500 to-indigo-500",
    "from-cyan-500 via-blue-500 to-indigo-500",
    "from-emerald-500 via-teal-500 to-cyan-500",
    "from-orange-500 via-amber-500 to-yellow-500",
    "from-pink-500 via-rose-500 to-red-500",
    "from-indigo-500 via-purple-500 to-pink-500"
  ]

  /** JavaScript's `%` on integers: the remainder takes the sign of the dividend. */
  function TruncatedRemainder(a: int, b: int): (r: int)
    requires b > 0
    ensures -b < r < b
    ensures a >= 0 ==> r == a % b
    ensures a < 0 ==> r <= 0
    ensures a < 0 ==> r == if a % b == 0 then 0 else a % b - b
  {
    if a >= 0 then a % b
    else
      var m := -a;
      var q, k := m / b, m % b;
      assert m == b * q + k;
      assert a % b == if k == 0 then 0 else b - k by {
        if k == 0 {
          EuclideanRemainderUnique(a, b, -q, 0);
        } else {
          EuclideanRemainderUnique(a, b, -q - 1, b - k);
        }
      }
      -k
  }

  /** Dafny's `%` is the unique remainder in `[0, b)`: any split
      `a == b * q + r` with `0 <= r < b` has `r == a % b`. */
  lemma EuclideanRemainderUnique(a: int, b: int, q: int, r: int)
    requires b > 0 && a == b * q + r && 0 <= r < b
    ensures a % b == r
  {
    var q0, r0 := a / b, a % b;
    assert b * q + r == b * q0 + r0;
    assert b * (q - q0) == r0 - r by {
      assert b * (q - q0) == b * q - b * q0;
    }
    if q - q0 >= 1 {
      assert b * (q - q0) >= b * 1 by { ScaleAtLeast(b, q - q0, 1); }
      assert false;
    } else if q0 - q >= 1 {
      assert false;
    }
  }

  /** Multiplying by a positive number keeps `>=`. */
  lemma ScaleAtLeast(b: int, x: int, y: int)
    requires b > 0 && x >= y
    ensures b * x >= b * y
  {
    assert b * x - b * y == b * (x - y);
  }

  /** `chapterGradients[index % chapterGradients.length]`; a negative remainder
      indexes outside the table and yields `undefined`, modelled as None. */
  function GetGradient(index: int): (g: Option<string>)
    ensures g.Some? <==> index >= 0 || index % |ChapterGradients| == 0
    ensures g.Some? ==> g.value in ChapterGradients
    ensures index >= 0 ==> g == Some(ChapterGradients[index % |ChapterGradients|])
    ensures index < 0 && index % |ChapterGradients| == 0 ==> g == Some(ChapterGradients[0])
  {
    var r := TruncatedRemainder(index, |ChapterGradients|);
    if r >= 0 then Some(ChapterGradients[r]) else None
  }

  /** Chapters six apart share a gradient. */
  lemma GetGradientPeriodic(index: nat)
    ensures GetGradient(index + 6) == GetGradient(index)
  {
  }

  /** No two presets are the same string. */
  lemma ChapterGradientsDistinct(i: nat, j: nat)
    requires i < |ChapterGradients| && j < |ChapterGradients|
    ensures ChapterGradients[i] == ChapterGradients[j] <==> i == j
  {
    if i != j {
      // The presets already differ in their sixth character.
      assert ChapterGradients[i][5] != ChapterGradients[j][5];
    }
  }

  /** Two chapters get the same gradient exactly when their indices agree modulo six. */
  lemma GetGradientSameIff(i: nat, j: nat)
    ensures GetGradient(i) == GetGradient(j) <==> i % 6 == j % 6
  {
    ChapterGradientsDistinct(i % 6, j % 6);
  }

  /** JavaScript's sign rule leaves negative indices outside the table except
      for multiples of six (`-6 % 6` is `-0`, which indexes the first preset). */
  lemma GetGradientNegativeExamples()
    ensures GetGradient(-1) == None
    ensures GetGradient(-6) == Some(ChapterGradients[0])
  {
  }
}
