/**
 The placeholder generator used when the image service is unavailable or fails:
 a keyword cascade over the lower-cased story picks a theme and a colour, one
 word of the theme's word list is drawn at random, and a picsum.photos URL is
 built from the current time and that word.
 */
module Themes {
  import opened Optional
  import opened Strings

  datatype Theme = Nature | Fantasy | Adventure | Emotions | Mystery

  /** The order in which the cascade tests the themes. */
  const Priority: seq<Theme> := [Nature, Fantasy, Adventure, Emotions, Mystery]

  /** The substrings whose presence selects a theme. */
  function Keywords(t: Theme): seq<string> {
    match t
    case Nature => ["forest", "tree", "nature"]
    case Fantasy => ["magic", "dragon", "castle"]
    case Adventure => ["journey", "adventure", "travel"]
    case Emotions => ["love", "happy", "joy"]
    case Mystery => ["dark", "night", "mystery"]
  }

  /** The colour a theme gets when one of its keywords matched. */
  function Color(t: Theme): string {
    match t
    case Nature => "10b981"
    case Fantasy => "8b5cf6"
    case Adventure => "f59e0b"
    case Emotions => "ec4899"
    case Mystery => "6366f1"
  }

  /** The colour that goes with the default theme when nothing matched. */
  const DefaultColor: string := "3b82f6"

  /** The words a placeholder can be tagged with, per theme. */
  function Words(t: Theme): seq<string> {
    match t
    case Nature => ["forest", "mountain", "ocean", "sunset", "meadow"]
    case Fantasy => ["castle", "dragon", "magic", "wizard", "kingdom"]
    case Adventure => ["journey", "quest", "exploration", "discovery", "travel"]
    case Emotions => ["joy", "love", "friendship", "hope", "courage"]
    case Mystery => ["night", "shadow", "secret", "mysterious", "dark"]
  }

  datatype Choice = Choice(theme: Theme, color: string)

  /** Some keyword of theme `t` occurs in the (already lower-cased) text. */
  predicate Mentions(lower: string, t: Theme) {
    exists k :: k in Keywords(t) && Contains(lower, k)
  }

  /** The cascade of `if / else if` tests over the lower-cased story. The
      colour is the chosen theme's own colour, or the default one. */
  function ChooseTheme(story: string): (c: Choice)
    ensures c.color == Color(c.theme) || c == Choice(Nature, DefaultColor)
  {
    var lower := ToLower(story);
    if Contains(lower, "forest") || Contains(lower, "tree") || Contains(lower, "nature") then
      Choice(Nature, "10b981")
    else if Contains(lower, "magic") || Contains(lower, "dragon") || Contains(lower, "castle") then
      Choice(Fantasy, "8b5cf6")
    else if Contains(lower, "journey") || Contains(lower, "adventure") || Contains(lower, "travel") then
      Choice(Adventure, "f59e0b")
    else if Contains(lower, "love") || Contains(lower, "happy") || Contains(lower, "joy") then
      Choice(Emotions, "ec4899")
    else if Contains(lower, "dark") || Contains(lower, "night") || Contains(lower, "mystery") then
      Choice(Mystery, "6366f1")
    else
      Choice(Nature, "3b82f6")
  }

  lemma MentionsSpelledOut(lower: string, t: Theme)
    ensures Mentions(lower, t) <==>
      Contains(lower, Keywords(t)[0]) || Contains(lower, Keywords(t)[1]) || Contains(lower, Keywords(t)[2])
  {
    var ks := Keywords(t);
    if Contains(lower, ks[0]) { assert ks[0] in ks; }
    if Contains(lower, ks[1]) { assert ks[1] in ks; }
    if Contains(lower, ks[2]) { assert ks[2] in ks; }
  }

  /** The first theme in priority order with a keyword in the lower-cased
      story wins, with that theme's colour; when no theme is mentioned the
      result is the nature theme with the default colour. */
  lemma FirstMentionedThemeWins(story: string)
    ensures var l := ToLower(story);
      ChooseTheme(story) == Choice(Nature, Color(Nature)) <==> Mentions(l, Nature)
    ensures var l := ToLower(story);
      ChooseTheme(story) == Choice(Fantasy, Color(Fantasy)) <==>
        !Mentions(l, Nature) && Mentions(l, Fantasy)
    ensures var l := ToLower(story);
      ChooseTheme(story) == Choice(Adventure, Color(Adventure)) <==>
        !Mentions(l, Nature) && !Mentions(l, Fantasy) && Mentions(l, Adventure)
    ensures var l := ToLower(story);
      ChooseTheme(story) == Choice(Emotions, Color(Emotions)) <==>
        !Mentions(l, Nature) && !Mentions(l, Fantasy) && !Mentions(l, Adventure) && Mentions(l, Emotions)
    ensures var l := ToLower(story);
      ChooseTheme(story) == Choice(Mystery, Color(Mystery)) <==>
        !Mentions(l, Nature) && !Mentions(l, Fantasy) && !Mentions(l, Adventure) && !Mentions(l, Emotions)
        && Mentions(l, Mystery)
    ensures var l := ToLower(story);
      ChooseTheme(story) == Choice(Nature, DefaultColor) <==>
        !Mentions(l, Nature) && !Mentions(l, Fantasy) && !Mentions(l, Adventure) && !Mentions(l, Emotions)
        && !Mentions(l, Mystery)
  {
    var lower := ToLower(story);
    MentionsSpelledOut(lower, Nature);
    MentionsSpelledOut(lower, Fantasy);
    MentionsSpelledOut(lower, Adventure);
    MentionsSpelledOut(lower, Emotions);
    MentionsSpelledOut(lower, Mystery);
  }

  /** A capitalised story about a dragon is a fantasy: lower-cased, it names
      a dragon and none of the nature keywords. */
  lemma DragonStoryIsFantasy()
    ensures ChooseTheme("A dragon flew over") == Choice(Fantasy, "8b5cf6")
  {
    DragonStoryChoice("A dragon flew over");
  }

  lemma DragonStoryChoice(story: string)
    requires story == "A dragon flew over"
    ensures ChooseTheme(story) == Choice(Fantasy, Color(Fantasy))
  {
    DragonStoryLowered(story);
    DragonStoryMentions(ToLower(story));
    FirstMentionedThemeWins(story);
  }

  lemma DragonStoryLowered(story: string)
    requires story == "A dragon flew over"
    ensures ToLower(story) == "a dragon flew over"
  {
  }

  lemma DragonStoryMentions(lower: string)
    requires lower == "a dragon flew over"
    ensures !Mentions(lower, Nature) && Mentions(lower, Fantasy)
  {
    DragonStoryNoNatureKeyword(lower);
    MentionsSpelledOut(lower, Nature);
    assert lower == "a " + "dragon flew over";
    assert StartsWith("dragon flew over", "dragon");
    ContainsInSuffix("a ", "dragon flew over", "dragon");
    MentionsSpelledOut(lower, Fantasy);
  }

  /** Each word of the story lacks a letter of each nature keyword: for
      "forest" the words a, dragon, flew, over lack f, f, o, f in turn. */
  lemma DragonStoryNoNatureKeyword(lower: string)
    requires lower == "a dragon flew over"
    ensures !Contains(lower, "forest") && !Contains(lower, "tree") && !Contains(lower, "nature")
  {
    DragonStoryLacks(lower, "forest", "ffof");
    DragonStoryLacks(lower, "tree", "tttt");
    DragonStoryLacks(lower, "nature", "ntnn");
  }

  /** A keyword is absent from the story when `missing` names, word by word,
      a letter of the keyword that the word does not contain. */
  lemma DragonStoryLacks(lower: string, w: string, missing: string)
    requires lower == "a dragon flew over"
    requires w != [] && ' ' !in w && |missing| == 4
    requires missing[0] in w && missing[0] !in "a"
    requires missing[1] in w && missing[1] !in "dragon"
    requires missing[2] in w && missing[2] !in "flew"
    requires missing[3] in w && missing[3] !in "over"
    ensures !Contains(lower, w)
  {
    var words := ["a", "dragon", "flew", "over"];
    DragonStoryWords(words);
    AbsentFromWords(words, w, missing);
  }

  lemma DragonStoryWords(words: seq<string>)
    requires words == ["a", "dragon", "flew", "over"]
    ensures JoinWords(words) == "a dragon flew over"
  {
    assert words[1..] == ["dragon", "flew", "over"];
    assert words[2..] == ["flew", "over"];
    assert words[3..] == ["over"];
    assert words[1..][1..] == words[2..] && words[2..][1..] == words[3..];
    assert JoinWords(words[3..]) == "over";
    assert JoinWords(words[2..]) == "flew over";
    assert JoinWords(words[1..]) == "dragon flew over";
  }

  /** Capitals do not hide a keyword, and the earlier theme wins: "The Dark
      Forest" names both a mystery and a nature keyword and is nature. */
  lemma DarkForestIsNature()
    ensures ChooseTheme("The Dark Forest") == Choice(Nature, "10b981")
  {
    DarkForestChoice("The Dark Forest");
  }

  lemma DarkForestChoice(story: string)
    requires story == "The Dark Forest"
    ensures ChooseTheme(story) == Choice(Nature, Color(Nature))
  {
    DarkForestLowered(story);
    DarkForestMentionsForest(ToLower(story));
  }

  lemma DarkForestLowered(story: string)
    requires story == "The Dark Forest"
    ensures ToLower(story) == "the dark forest"
  {
  }

  lemma DarkForestMentionsForest(lower: string)
    requires lower == "the dark forest"
    ensures Contains(lower, "forest")
  {
    assert lower == "the dark " + "forest";
    assert StartsWith("forest", "forest");
    ContainsInSuffix("the dark ", "forest", "forest");
  }

  /** `Math.random()`, a number in [0, 1). */
  type Fraction = r: real | 0.0 <= r < 1.0

  /** `Math.floor(Math.random() * n)`: a uniform draw is an index into a
      non-empty list of length `n`. */
  function RandomIndex(r: Fraction, n: nat): (i: nat)
    requires n > 0
    ensures i < n
  {
    assert r * (n as real) < n as real;
    (r * (n as real)).Floor
  }

  const UrlPrefix: string := "https://picsum.photos/400/400?random="
  const WordTag: string := "&t="
  const UrlSuffix: string := "&blur=1"

  /** The placeholder address for a timestamp and a theme word. */
  function FallbackUrl(stamp: int, word: string): string {
    UrlPrefix + Decimal(stamp) + WordTag + word + UrlSuffix
  }

  /** The placeholder for a story, drawn at time `stamp` with random number `r`:
      its word is one of the words of the theme the story was classified under. */
  function FallbackImage(story: string, stamp: int, r: Fraction): (url: string)
    ensures exists w :: w in Words(ChooseTheme(story).theme) && url == FallbackUrl(stamp, w)
  {
    var words := Words(ChooseTheme(story).theme);
    FallbackUrl(stamp, words[RandomIndex(r, |words|)])
  }

  datatype UrlParts = UrlParts(stamp: int, word: string)

  /** Reads the timestamp and the theme word back out of a placeholder address. */
  function ParseFallbackUrl(url: string): Option<UrlParts> {
    if |url| >= |UrlPrefix| + |UrlSuffix|
       && url[..|UrlPrefix|] == UrlPrefix
       && url[|url| - |UrlSuffix|..] == UrlSuffix
    then
      var body := url[|UrlPrefix|..|url| - |UrlSuffix|];
      var k := IndexOf(body, '&');
      if StartsWith(body[k..], WordTag) then
        match ParseDecimal(body[..k])
        case Some(n) => Some(UrlParts(n, body[k + |WordTag|..]))
        case None => None
      else None
    else None
  }

  /** Every placeholder address can be read back into the timestamp and word it was built from. */
  lemma FallbackUrlRoundTrip(stamp: int, word: string)
    ensures ParseFallbackUrl(FallbackUrl(stamp, word)) == Some(UrlParts(stamp, word))
  {
    var d := Decimal(stamp);
    var url := FallbackUrl(stamp, word);
    var body := d + WordTag + word;
    FallbackUrlFrame(url, body);
    FallbackUrlBody(d, word);
    DecimalRoundTrip(stamp);
  }

  /** The first '&' of the body ends the timestamp and starts the word tag. */
  lemma FallbackUrlBody(d: string, word: string)
    requires forall i :: 0 <= i < |d| ==> d[i] != '&'
    ensures var body := d + WordTag + word;
      var k := IndexOf(body, '&');
      && k == |d| && body[..k] == d && StartsWith(body[k..], WordTag)
      && body[k + |WordTag|..] == word
  {
    var body := d + WordTag + word;
    assert body[|d|] == '&';
    assert forall i :: 0 <= i < |d| ==> body[i] == d[i];
    var k := IndexOf(body, '&');
    assert k == |d|;
    assert body[k..] == WordTag + word;
  }

  /** The fixed prefix and suffix of an address frame its body. */
  lemma FallbackUrlFrame(url: string, body: string)
    requires url == UrlPrefix + body + UrlSuffix
    ensures |url| >= |UrlPrefix| + |UrlSuffix|
    ensures url[..|UrlPrefix|] == UrlPrefix && url[|url| - |UrlSuffix|..] == UrlSuffix
    ensures url[|UrlPrefix|..|url| - |UrlSuffix|] == body
  {
  }

  /** The theme a placeholder word belongs to; the word lists are disjoint. */
  function ThemeOfWord(w: string): Option<Theme> {
    if w in Words(Nature) then Some(Nature)
    else if w in Words(Fantasy) then Some(Fantasy)
    else if w in Words(Adventure) then Some(Adventure)
    else if w in Words(Emotions) then Some(Emotions)
    else if w in Words(Mystery) then Some(Mystery)
    else None
  }

  lemma WordListsDisjoint(t: Theme, w: string)
    requires w in Words(t)
    ensures ThemeOfWord(w) == Some(t)
  {
  }

  /** A placeholder address determines the timestamp it was drawn at and the
      theme the story was classified under; the colour plays no part. */
  lemma FallbackImageShowsTheme(story: string, stamp: int, r: Fraction)
    ensures
      var parts := ParseFallbackUrl(FallbackImage(story, stamp, r));
      parts.Some? && parts.value.stamp == stamp
      && ThemeOfWord(parts.value.word) == Some(ChooseTheme(story).theme)
  {
    var words := Words(ChooseTheme(story).theme);
    var w := words[RandomIndex(r, |words|)];
    assert FallbackImage(story, stamp, r) == FallbackUrl(stamp, w);
    FallbackUrlRoundTrip(stamp, w);
    WordListsDisjoint(ChooseTheme(story).theme, w);
  }

  /** The computed colour never reaches the address: a story about a forest and
      a story with no keyword get different colours but the same placeholder. */
  lemma ColorNotInUrl(stamp: int, r: Fraction)
    ensures ChooseTheme("forest").color != ChooseTheme("").color
    ensures FallbackImage("forest", stamp, r) == FallbackImage("", stamp, r)
  {
    ToLowerOfLowercase("forest");
    assert StartsWith("forest", "forest");
    assert ChooseTheme("forest") == Choice(Nature, "10b981");
    assert ChooseTheme("") == Choice(Nature, "3b82f6");
  }
}
