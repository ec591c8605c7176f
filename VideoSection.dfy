/** The video panel of a topic: title decoding, the count label, and the
    selection of the video that plays. */
module VideoSection {
  import opened Wrappers
  import opened CourseTypes

  /** `s.replace(/pat/g, rep)` for a literal pattern: matches are taken left
      to right without overlap, and scanning resumes after each replacement. */
  function ReplaceAll(s: string, pat: string, rep: string): (r: string)
    requires |pat| > 0
    ensures |rep| <= |pat| ==> |r| <= |s|
    ensures (forall i :: 0 <= i < |s| ==> s[i] != pat[0]) ==> r == s
    decreases |s|
  {
    if |s| < |pat| then s
    else if s[..|pat|] == pat then rep + ReplaceAll(s[|pat|..], pat, rep)
    else [s[0]] + ReplaceAll(s[1..], pat, rep)
  }

  /** A text starting with the pattern: the replacement, then the rest replaced. */
  lemma ReplaceAllAtMatch(pat: string, rest: string, rep: string)
    requires |pat| > 0
    ensures ReplaceAll(pat + rest, pat, rep) == rep + ReplaceAll(rest, pat, rep)
  {
    var s := pat + rest;
    assert s[..|pat|] == pat && s[|pat|..] == rest;
  }

  /** Where the pattern does not start, one character passes through. */
  lemma ReplaceAllStep(s: string, pat: string, rep: string)
    requires 0 < |pat| <= |s| && s[..|pat|] != pat
    ensures ReplaceAll(s, pat, rep) == [s[0]] + ReplaceAll(s[1..], pat, rep)
  {
  }

  /** A prefix free of the pattern's first character passes through unchanged. */
  lemma {:induction false} ReplaceAllSkipsPrefix(prefix: string, rest: string, pat: string, rep: string)
    requires |pat| > 0
    requires forall i :: 0 <= i < |prefix| ==> prefix[i] != pat[0]
    ensures ReplaceAll(prefix + rest, pat, rep) == prefix + ReplaceAll(rest, pat, rep)
    decreases |prefix|
  {
    var s := prefix + rest;
    if prefix == [] {
      assert s == rest;
    } else {
      ReplaceAllSkipsPrefix(prefix[1..], rest, pat, rep);
      assert s[1..] == prefix[1..] + rest;
      assert prefix == [prefix[0]] + prefix[1..];
      if |s| < |pat| {
        assert ReplaceAll(rest, pat, rep) == rest;
      } else {
        assert s[..|pat|][0] == prefix[0] != pat[0];
        ReplaceAllStep(s, pat, rep);
      }
    }
  }

  /** Title decoding: every `&#39;` becomes `'`, then every `&amp;` becomes `&`. */
  function DecodeTitle(title: string): (decoded: string)
    ensures |decoded| <= |title|
    ensures (forall i :: 0 <= i < |title| ==> title[i] != '&') ==> decoded == title
  {
    ReplaceAll(ReplaceAll(title, "&#39;", "'"), "&amp;", "&")
  }

  /** The HTML escaping the decoder undoes: `&` as `&amp;`, `'` as `&#39;`. */
  function EscapeTitle(s: string): string {
    if s == [] then []
    else (if s[0] == '&' then "&amp;" else if s[0] == '\'' then "&#39;" else [s[0]]) + EscapeTitle(s[1..])
  }

  /** The escaping of `&` alone, what is left after the first decoding pass. */
  function EscapeAmpersands(s: string): string {
    if s == [] then []
    else (if s[0] == '&' then "&amp;" else [s[0]]) + EscapeAmpersands(s[1..])
  }

  lemma {:induction false} FirstPassUndoesApostrophes(s: string)
    ensures ReplaceAll(EscapeTitle(s), "&#39;", "'") == EscapeAmpersands(s)
  {
    if s != [] {
      var rest := EscapeTitle(s[1..]);
      FirstPassUndoesApostrophes(s[1..]);
      if s[0] == '&' {
        var e := "&amp;" + rest;
        assert e[..5] != "&#39;" by { assert e[1] == 'a'; }
        assert e[1..] == "amp;" + rest;
        ReplaceAllSkipsPrefix("amp;", rest, "&#39;", "'");
        assert EscapeTitle(s) == e;
      } else if s[0] == '\'' {
        ReplaceAllAtMatch("&#39;", rest, "'");
      } else {
        ReplaceAllSkipsPrefix([s[0]], rest, "&#39;", "'");
      }
    }
  }

  lemma {:induction false} SecondPassUndoesAmpersands(s: string)
    ensures ReplaceAll(EscapeAmpersands(s), "&amp;", "&") == s
  {
    if s != [] {
      var rest := EscapeAmpersands(s[1..]);
      SecondPassUndoesAmpersands(s[1..]);
      if s[0] == '&' {
        ReplaceAllAtMatch("&amp;", rest, "&");
      } else {
        ReplaceAllSkipsPrefix([s[0]], rest, "&amp;", "&");
      }
      assert s == [s[0]] + s[1..];
    }
  }

  /** Decoding inverts the escaping of `&` and `'`. */
  lemma DecodeEscapeRoundTrip(s: string)
    ensures DecodeTitle(EscapeTitle(s)) == s
  {
    FirstPassUndoesApostrophes(s);
    SecondPassUndoesAmpersands(s);
  }

  /** `&amp;#39;` holds no `&#39;`, so the first pass keeps it. */
  lemma FirstPassKeepsEscapedApostrophe()
    ensures ReplaceAll("&amp;#39;", "&#39;", "'") == "&amp;#39;"
  {
    var amp, apos, tail := "&amp;", "&#39;", "#39;";
    var s := amp + tail;
    assert s == "&amp;#39;";
    assert s[..5] == amp && amp[1] != apos[1];
    ReplaceAllStep(s, apos, "'");
    assert s[1..] == amp[1..] + tail;
    ReplaceAllSkipsPrefix(amp[1..] + tail, [], apos, "'");
    assert amp[1..] + tail + [] == s[1..];
  }

  /** The second pass turns its leading `&amp;` into `&`. */
  lemma SecondPassExposesApostropheEntity()
    ensures ReplaceAll("&amp;#39;", "&amp;", "&") == "&#39;"
  {
    var amp, tail := "&amp;", "#39;";
    assert amp + tail == "&amp;#39;";
    ReplaceAllAtMatch(amp, tail, "&");
    ReplaceAllSkipsPrefix(tail, [], amp, "&");
    assert tail + [] == tail;
  }

  lemma DecodeApostropheEntity()
    ensures DecodeTitle("&#39;") == "'"
  {
    var apos := "&#39;";
    ReplaceAllAtMatch(apos, [], "'");
    assert apos + [] == apos;
  }

  /** One pass in that order: `&amp;#39;` decodes to `&#39;`, so decoding
      again would change the title a second time. */
  lemma DecodeIsSinglePass()
    ensures DecodeTitle("&amp;#39;") == "&#39;"
    ensures DecodeTitle(DecodeTitle("&amp;#39;")) == "'"
  {
    FirstPassKeepsEscapedApostrophe();
    SecondPassExposesApostropheEntity();
    DecodeApostropheEntity();
  }

  /** The counter beside the heading. */
  function CountLabel(count: nat): (unit: string)
    ensures unit == "video" <==> count == 1
    ensures unit == "video" || unit == "videos"
  {
    if count == 1 then "video" else "videos"
  }

  /** One card of the grid: the decoded title and whether it is highlighted. */
  datatype Card = Card(title: string, highlighted: bool)

  /** What the panel shows. */
  datatype SectionView =
    | Nothing
    | Section(count: nat, unit: string, nowPlaying: Option<string>, cards: seq<Card>)

  /** One mounted panel: its videos and the selected one. */
  class VideoPanel {
    const videos: Option<seq<YouTubeVideo>>
    var selectedVideo: Option<YouTubeVideo>

    constructor (videos: Option<seq<YouTubeVideo>>)
      ensures this.videos == videos && selectedVideo == None
    {
      this.videos := videos;
      selectedVideo := None;
    }

    /** A card is highlighted when its video id is the selected video's. */
    predicate IsHighlighted(video: YouTubeVideo)
      reads this
    {
      selectedVideo.Some? && selectedVideo.value.videoId == video.videoId
    }

    /** Clicking the card at `index` selects its video. */
    method SelectVideo(index: nat)
      requires videos.Some? && index < |videos.value|
      modifies this
      ensures selectedVideo == Some(videos.value[index])
      ensures forall j :: 0 <= j < |videos.value| ==>
                (IsHighlighted(videos.value[j]) <==> videos.value[j].videoId == videos.value[index].videoId)
    {
      selectedVideo := Some(videos.value[index]);
    }

    /** The panel: nothing for a missing or empty list; otherwise the count
        and its label, the selected video's decoded title, and one card per
        video in order. */
    function View(): (view: SectionView)
      reads this
      ensures view.Nothing? <==> videos.None? || |videos.value| == 0
      ensures view.Section? ==> view.count == |videos.value| && view.unit == CountLabel(|videos.value|)
      ensures view.Section? ==> (view.nowPlaying.Some? <==> selectedVideo.Some?)
      ensures view.Section? && selectedVideo.Some? ==> view.nowPlaying == Some(DecodeTitle(selectedVideo.value.title))
      ensures view.Section? ==> |view.cards| == |videos.value|
      ensures view.Section? ==> forall i :: 0 <= i < |view.cards| ==>
                view.cards[i].title == DecodeTitle(videos.value[i].title)
                && (view.cards[i].highlighted <==> IsHighlighted(videos.value[i]))
      ensures view.Section? && selectedVideo == None ==> forall i :: 0 <= i < |view.cards| ==> !view.cards[i].highlighted
    {
      if videos.None? || |videos.value| == 0 then Nothing
      else
        var vs, selected := videos.value, selectedVideo;
        Section(
          |vs|,
          CountLabel(|vs|),
          if selectedVideo.Some? then Some(DecodeTitle(selectedVideo.value.title)) else None,
          seq(|vs|, i requires 0 <= i < |vs| => Card(DecodeTitle(vs[i].title), selected.Some? && selected.value.videoId == vs[i].videoId)))
    }
  }
}
