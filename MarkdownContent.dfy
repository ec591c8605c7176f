/** The `code` renderer of the lesson markdown: deciding between inline and
    block code from the element's class name, the block's language, and the
    trailing newline it drops. */
module MarkdownContent {
  import opened Wrappers

  /** The regex class `\w`: ASCII letters, digits and `_`. */
  predicate IsWordChar(c: char) {
    ('a' <= c <= 'z') || ('A' <= c <= 'Z') || ('0' <= c <= '9') || c == '_'
  }

  const LanguagePrefix: string := "language-"

  /** `language-` followed by at least one word character starts at index `i`. */
  predicate LanguageAt(s: string, i: int) {
    0 <= i && i + |LanguagePrefix| < |s|
    && s[i..i + |LanguagePrefix|] == LanguagePrefix
    && IsWordChar(s[i + |LanguagePrefix|])
  }

  /** The longest prefix of `s` made of word characters (the greedy `\w+`). */
  function WordRun(s: string): (run: string)
    ensures run <= s
    ensures forall i :: 0 <= i < |run| ==> IsWordChar(run[i])
    ensures |run| < |s| ==> !IsWordChar(s[|run|])
  {
    if s == [] || !IsWordChar(s[0]) then [] else [s[0]] + WordRun(s[1..])
  }

  /** The leftmost index at or after `from` where the pattern matches. */
  function FindLanguageFrom(s: string, from: nat): (at: Option<nat>)
    ensures at.Some? ==> from <= at.value && LanguageAt(s, at.value)
    ensures at.Some? ==> forall j :: from <= j < at.value ==> !LanguageAt(s, j)
    ensures at.None? ==> forall j :: from <= j ==> !LanguageAt(s, j)
    decreases |s| - from
  {
    if from + |LanguagePrefix| >= |s| then None
    else if LanguageAt(s, from) then Some(from)
    else FindLanguageFrom(s, from + 1)
  }

  /** `match[1]` of `/language-(\w+)/.exec(className)`: the word run after the
      leftmost `language-` that is followed by a word character. */
  function MatchLanguage(className: string): (language: Option<string>)
    ensures language.None? <==> forall i :: !LanguageAt(className, i)
    ensures language.Some? ==> |language.value| > 0
    ensures language.Some? ==> forall k :: 0 <= k < |language.value| ==> IsWordChar(language.value[k])
    ensures language.Some? ==>
      exists i :: (LanguageAt(className, i)
        && (forall j :: 0 <= j < i ==> !LanguageAt(className, j))
        && language.value == WordRun(className[i + |LanguagePrefix|..]))
  {
    match FindLanguageFrom(className, 0)
    case None => None
    case Some(i) => Some(WordRun(className[i + |LanguagePrefix|..]))
  }

  /** `String(children).replace(/\n$/, "")`: one trailing newline is dropped. */
  function StripTrailingNewline(s: string): (r: string)
    ensures |s| > 0 && s[|s| - 1] == '\n' ==> r + "\n" == s
    ensures !(|s| > 0 && s[|s| - 1] == '\n') ==> r == s
  {
    if |s| > 0 && s[|s| - 1] == '\n' then s[..|s| - 1] else s
  }

  /** Only one newline goes: `a\n\n` keeps its first. */
  lemma StripTrailingNewlineExample()
    ensures StripTrailingNewline("a\n\n") == "a\n"
  {
    assert "a\n\n"[..2] == "a\n";
  }

  /** The language badge: the language, or `code` when it is empty. */
  function BadgeLanguage(language: string): (shown: string)
    ensures shown != ""
    ensures language != "" ==> shown == language
    ensures language == "" ==> shown == "code"
  {
    if language == "" then "code" else language
  }

  /** The highlighter's language: the language, or `text` when it is empty. */
  function HighlighterLanguage(language: string): (used: string)
    ensures used != ""
    ensures language != "" ==> used == language
    ensures language == "" ==> used == "text"
  {
    if language == "" then "text" else language
  }

  /** The two ways a `code` element is drawn. */
  datatype CodeView = InlineCode(children: string) | CodeBlock(language: string, code: string)

  /** The `code` renderer: inline unless the class name (or `""` when absent)
      names a language; a block shows that language and the text without its
      trailing newline. */
  function RenderCode(className: Option<string>, children: string): (view: CodeView)
    ensures view.InlineCode? <==> forall i :: !LanguageAt(className.GetOr(""), i)
    ensures view.InlineCode? ==> view.children == children
    ensures view.CodeBlock? ==> view.language != "" && view.code == StripTrailingNewline(children)
    ensures view.CodeBlock? ==> Some(view.language) == MatchLanguage(className.GetOr(""))
  {
    match MatchLanguage(className.GetOr(""))
    case None => InlineCode(children)
    case Some(language) => CodeBlock(language, StripTrailingNewline(children))
  }

  /** A block always has a language, so neither fallback is ever shown for it. */
  lemma BlockNeedsNoLanguageFallback(className: Option<string>, children: string)
    ensures var view := RenderCode(className, children);
      view.CodeBlock? ==>
        (BadgeLanguage(view.language) == view.language && HighlighterLanguage(view.language) == view.language)
  {
  }

  /** An absent class name renders inline code. */
  lemma AbsentClassNameIsInline(children: string)
    ensures RenderCode(None, children) == InlineCode(children)
  {
  }

  lemma LanguageExamples()
    ensures MatchLanguage("language-js") == Some("js")
    ensures MatchLanguage("language- language-py x") == Some("py")
  {
    var a := "language-js";
    assert LanguageAt(a, 0) by { assert a[..9] == LanguagePrefix; }
    assert a[9..] == "js";
    assert WordRun("js") == "js" by { assert WordRun("s") == "s" by { assert "s"[1..] == []; } assert "js"[1..] == "s"; }
    var b := "language- language-py x";
    assert !LanguageAt(b, 0);
    assert LanguageAt(b, 10) by { assert b[10..19] == LanguagePrefix; }
    assert forall j :: 0 < j < 10 ==> !LanguageAt(b, j) by {
      forall j | 0 < j < 10 ensures !LanguageAt(b, j) {
        assert b[j..j + 9][9 - j] == b[9] == ' ';
      }
    }
    assert b[19..] == "py x";
    assert WordRun("py x") == "py" by {
      assert "py x"[1..] == "y x";
      assert "y x"[1..] == " x";
    }
  }
}
