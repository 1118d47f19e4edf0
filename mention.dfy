/** The leading-mention split shared by `cleanText` (js/paradise.js) and
    `parseContent` (js/main.js): the regular expression `/^(@\S+)\s*(.*)/`,
    without flags, applied to the plain text of a message. */
module Mention {
  import opened Common
  import opened Text

  /** `{ target, content }` as both source functions return it. */
  datatype Normalized = Normalized(target: string, content: string)

  /** The end of the run of non-white-space characters that starts at `i`. */
  function SkipNonSpace(s: string, i: nat): (j: nat)
    requires i <= |s|
    ensures i <= j <= |s|
    ensures forall p :: i <= p < j ==> !IsWhiteSpace(s[p])
    ensures j < |s| ==> IsWhiteSpace(s[j])
    decreases |s| - i
  {
    if i == |s| || IsWhiteSpace(s[i]) then i else SkipNonSpace(s, i + 1)
  }

  /** The end of the run of white space that starts at `i`. */
  function SkipSpace(s: string, i: nat): (j: nat)
    requires i <= |s|
    ensures i <= j <= |s|
    ensures forall p :: i <= p < j ==> IsWhiteSpace(s[p])
    ensures j < |s| ==> !IsWhiteSpace(s[j])
    decreases |s| - i
  {
    if i == |s| || !IsWhiteSpace(s[i]) then i else SkipSpace(s, i + 1)
  }

  /** How far `.` repeats from `i`: up to the next line terminator. */
  function SkipToLineEnd(s: string, i: nat): (j: nat)
    requires i <= |s|
    ensures i <= j <= |s|
    ensures forall p :: i <= p < j ==> !IsLineTerminator(s[p])
    ensures j < |s| ==> IsLineTerminator(s[j])
    decreases |s| - i
  {
    if i == |s| || IsLineTerminator(s[i]) then i else SkipToLineEnd(s, i + 1)
  }

  /** The two captures of `text.match(/^(@\S+)\s*(.*)/)`, or `None` when the
      pattern does not match. The pattern matches as soon as `text` starts
      with `@` and one non-white-space character; every quantifier then keeps
      its longest choice, because what follows it can always match. */
  function Match(text: string): Option<(string, string)>
  {
    if |text| >= 2 && text[0] == '@' && !IsWhiteSpace(text[1]) then
      var k := SkipNonSpace(text, 0);
      var g := SkipSpace(text, k);
      var c := SkipToLineEnd(text, g);
      Some((text[..k], text[g..c]))
    else
      None
  }

  /** `match ? { target: match[1], content: match[2] } : { target: "", content: text }` */
  function Split(text: string): Normalized
  {
    match Match(text)
    case Some((target, content)) => Normalized(target, content)
    case None => Normalized("", text)
  }

  /** The pattern read as a grammar, with cuts `k <= g <= c`: `text[..k]` is
      `@\S+`, `text[k..g]` is `\s*`, `text[g..c]` is `.*`, and each
      quantifier stopped only where it could not go on. */
  ghost predicate GreedyCuts(text: string, k: nat, g: nat, c: nat)
  {
    && 2 <= k <= g <= c <= |text|
    && text[0] == '@'
    && (forall p :: 1 <= p < k ==> !IsWhiteSpace(text[p]))
    && (k < |text| ==> IsWhiteSpace(text[k]))
    && (forall p :: k <= p < g ==> IsWhiteSpace(text[p]))
    && (g < |text| ==> !IsWhiteSpace(text[g]))
    && (forall p :: g <= p < c ==> !IsLineTerminator(text[p]))
    && (c < |text| ==> IsLineTerminator(text[c]))
  }

  /** The pattern matches exactly when the text starts with `@` followed by a
      non-white-space character, and its captures are then those of a greedy
      reading of the pattern. */
  lemma MatchIsGreedy(text: string)
    ensures Match(text).Some? <==> |text| >= 2 && text[0] == '@' && !IsWhiteSpace(text[1])
    ensures Match(text).Some? ==>
      exists k: nat, g: nat, c: nat :: GreedyCuts(text, k, g, c)
                        && Match(text).value == (text[..k], text[g..c])
  {
    if |text| >= 2 && text[0] == '@' && !IsWhiteSpace(text[1]) {
      var k := SkipNonSpace(text, 0);
      var g := SkipSpace(text, k);
      var c := SkipToLineEnd(text, g);
      assert GreedyCuts(text, k, g, c);
    }
  }

  /** A greedy reading of the pattern is unique, and it is the one `Match`
      returns. */
  lemma GreedyCutsAreMatch(text: string, k: nat, g: nat, c: nat)
    requires GreedyCuts(text, k, g, c)
    ensures Match(text) == Some((text[..k], text[g..c]))
  {
    assert !IsWhiteSpace(text[1]);
    assert SkipNonSpace(text, 0) == k;
    assert SkipSpace(text, k) == g;
    assert SkipToLineEnd(text, g) == c;
  }

  /** What a caller sees of the split: without a match the whole text is the
      content and there is no target; with one, the target is `@` and a run of
      non-white-space characters at the start of the text, and the content is
      a stretch of the text further on that neither starts with white space
      nor holds a line terminator. */
  lemma SplitShape(text: string)
    ensures Match(text).None? ==> Split(text) == Normalized("", text)
    ensures Match(text).Some? ==>
      var n := Split(text);
      && 2 <= |n.target| <= |text| && n.target == text[..|n.target|] && n.target[0] == '@'
      && (forall p :: 0 <= p < |n.target| ==> !IsWhiteSpace(n.target[p]))
      && (n.content == [] || !IsWhiteSpace(n.content[0]))
      && (forall p :: 0 <= p < |n.content| ==> !IsLineTerminator(n.content[p]))
      && exists g: nat :: |n.target| <= g <= g + |n.content| <= |text|
           && AllWhiteSpace(text[|n.target|..g]) && n.content == text[g..g + |n.content|]
           && (g + |n.content| == |text| || IsLineTerminator(text[g + |n.content|]))
  {
    if Match(text).Some? {
      var k := SkipNonSpace(text, 0);
      var g := SkipSpace(text, k);
      var c := SkipToLineEnd(text, g);
      assert Split(text) == Normalized(text[..k], text[g..c]);
      assert AllWhiteSpace(text[k..g]);
    }
  }

  /** A mention, one space and one line of text split into that mention and
      that text. */
  lemma SplitMentionAndLine(target: string, content: string)
    requires |target| >= 2 && target[0] == '@'
    requires forall p :: 0 <= p < |target| ==> !IsWhiteSpace(target[p])
    requires content == [] || !IsWhiteSpace(content[0])
    requires forall p :: 0 <= p < |content| ==> !IsLineTerminator(content[p])
    ensures Split(target + " " + content) == Normalized(target, content)
  {
    var text := target + " " + content;
    var k := |target|;
    assert text[..k] == target && text[k + 1..] == content;
    forall p | 1 <= p < k
      ensures !IsWhiteSpace(text[p])
    {
      assert text[p] == target[p];
    }
    forall p | k + 1 <= p < |text|
      ensures !IsLineTerminator(text[p])
    {
      assert text[p] == content[p - k - 1];
    }
    assert GreedyCuts(text, k, k + 1, |text|);
    GreedyCutsAreMatch(text, k, k + 1, |text|);
  }

  /** `cleanText(htmlString)` of js/paradise.js and `parseContent(htmlString)`
      of js/main.js, which are the same: an empty input gives nothing,
      anything else is split after the HTML-to-text step (`DOMParser` and
      `textContent`), which is the parameter `textContent`. */
  function CleanText(textContent: string -> string, html: string): Normalized
  {
    if html == "" then Normalized("", "") else Split(textContent(html))
  }

  /** An empty input gives an empty target and content; text without a
      leading mention is all content; otherwise the target is the leading
      `@` token and the content holds no line break and starts with no white
      space. */
  lemma CleanTextCases(textContent: string -> string, html: string)
    ensures html == "" ==> CleanText(textContent, html) == Normalized("", "")
    ensures html != "" && Match(textContent(html)).None? ==>
      CleanText(textContent, html) == Normalized("", textContent(html))
    ensures html != "" && Match(textContent(html)).Some? ==>
      var n := CleanText(textContent, html);
      && 2 <= |n.target| && n.target[0] == '@'
      && n.target == textContent(html)[..|n.target|]
      && (forall p :: 0 <= p < |n.target| ==> !IsWhiteSpace(n.target[p]))
      && (n.content == [] || !IsWhiteSpace(n.content[0]))
      && (forall p :: 0 <= p < |n.content| ==> !IsLineTerminator(n.content[p]))
  {
    if html != "" {
      SplitShape(textContent(html));
    }
  }
}
