/**
 * The deterministic rules of the Xiaohongshu post generator (`PostGenerator` in
 * post_generator.py) around its four chat-completion calls: how each reply is
 * cleaned up, what each step falls back to when its call raises, the emoji
 * selection and paragraph formatting helpers, and how `generate_post` wires the
 * steps together.
 *
 * The chat-completion service is an input: a function from the values put into a
 * prompt to an outcome, `Reply(text)` or `Failure` (the call raised).  Every use of
 * Python's `random` is a choice the caller supplies.
 */
module PostGenerator {
  import opened Common
  import opened Text

  // ---------------------------------------------------------------------------
  // Data model
  // ---------------------------------------------------------------------------

  /** What one call to the chat-completion service gives back. */
  datatype LlmOutcome = Reply(text: string) | Failure

  /** The values each prompt interpolates; the fixed prose around them is not modelled. */
  datatype Prompt =
    | StylePrompt(text: string, userQuery: string, catalogue: seq<string>)
    | ContentPrompt(text: string, style: string, userQuery: string)
    | TitlePrompt(content: string, style: string, userQuery: string)
    | HashtagPrompt(excerpt: string, style: string, userQuery: string)

  /** The chat-completion service as the generator sees it. */
  type Llm = Prompt -> LlmOutcome

  /** The two catalogues that `__init__` sets and nothing changes afterwards. */
  datatype Config = Config(styles: seq<string>, emojiSets: map<string, seq<string>>)

  /** The input dictionary.  Its "text_blocks" and "analysis" keys reach only the content
      prompt builder, which does not put them into the prompt, so they are not carried. */
  datatype ImageData = ImageData(text: Option<string>)

  /** The dictionary `generate_post` returns: exactly these four keys. */
  datatype Post = Post(title: string, content: string, hashtags: seq<string>, style: string)

  /** The style catalogue listed in the style prompt. */
  const Styles: seq<string> := [
    "lifestyle",
    "fashion",
    "beauty",
    "food",
    "travel",
    "fitness",
    "home decor",
    "snowboarding",
    "bouldering",
    "archery",
    "AI",
    "news",
    "tech",
    "exhibitions",
    "concerts",
    "plays",
    "films",
    "series"
  ]

  /** The emoji set of each style, by catalogue name. */
  const EmojiSets: map<string, seq<string>> := map[
    "lifestyle" := ["✨", "💫", "🌈", "💖", "🥰", "🌟", "🌱"],
    "fashion" := ["👗", "👠", "👜", "💅", "👒", "✨", "💎"],
    "beauty" := ["💄", "💋", "✨", "💆‍♀️", "💅", "🧴", "💫"],
    "food" := ["🍜", "🍣", "🍰", "☕", "🍷", "🥂", "😋"],
    "travel" := ["✈️", "🌍", "🏝️", "🗺️", "🧳", "📸", "🌅"],
    "fitness" := ["💪", "🏃‍♀️", "🧘‍♀️", "🥗", "🥤", "🌱", "✨"],
    "home decor" := ["🏠", "🪴", "🛋️", "✨", "🕯️", "🖼️", "💫"],
    "snowboarding" := ["🏂", "❄️", "🏔️", "🌨️", "🎿", "🥶", "🔥"],
    "bouldering" := ["🧗‍♀️", "🧗‍♂️", "💪", "🪨", "🧠", "🤸‍♀️", "✨"],
    "archery" := ["🏹", "🎯", "🔄", "💯", "🧘‍♀️", "🏆", "✨"],
    "AI" := ["🤖", "💻", "🧠", "✨", "🔮", "📊", "🚀"],
    "news" := ["🌍", "🤝", "📜", "🏛️", "🔄", "📰", "🌐"],
    "exhibitions" := ["🖼️", "🏛️", "🎨", "✨", "📸", "🖌️", "👁️"],
    "concerts" := ["🎵", "🎤", "🎸", "🥁", "🎧", "✨", "🔥"],
    "plays" := ["🎭", "🎬", "👥", "🎪", "🎟️", "✨", "👏"],
    "films" := ["🎬", "🍿", "🎞️", "🎭", "🎥", "🎦", "✨"],
    "series" := ["📺", "🍿", "🎬", "📱", "🎭", "🎞️", "✨"]
  ]

  /** The set `_get_emojis` uses for a style without one. */
  const DefaultEmojis: seq<string> := ["✨", "💫", "🌈", "💖", "🥰", "🌟", "🌱"]

  /** The configuration `PostGenerator()` builds. */
  function DefaultConfig(): Config {
    Config(Styles, EmojiSets)
  }

  const FallbackStyle: string := "lifestyle"
  const MaxHashtags: nat := 8
  const ExcerptLength: nat := 300

  // ---------------------------------------------------------------------------
  // Style
  // ---------------------------------------------------------------------------

  /**
   * `_determine_style` after its call: the reply trimmed and lower-cased, with no check
   * against the catalogue; "lifestyle" when the call raised.
   */
  function DetermineStyle(reply: LlmOutcome): (style: string)
    ensures reply.Failure? ==> style == FallbackStyle
    ensures reply.Reply? ==> IsStripped(style) && NoUpper(style) && |style| <= |reply.text|
  {
    match reply
    case Reply(text) =>
      LowerKeepsSpace(Strip(text));
      LowerIdempotent(Strip(text));
      Lower(Strip(text))
    case Failure => FallbackStyle
  }

  /** The style is the lower-cased core of the reply, whatever whitespace surrounds it. */
  lemma StyleFromReply(pre: string, core: string, post: string)
    requires AllSpace(pre) && AllSpace(post) && IsStripped(core)
    ensures DetermineStyle(Reply(pre + core + post)) == Lower(core)
  {
    StripExactly(pre, core, post);
  }

  /** A style fed back as a reply comes out unchanged. */
  lemma StyleIdempotent(reply: LlmOutcome)
    ensures DetermineStyle(Reply(DetermineStyle(reply))) == DetermineStyle(reply)
  {
    var style := DetermineStyle(reply);
    if reply.Failure? {
      assert IsStripped(style) && NoUpper(style);
    }
    NormalFormFixed(style);
  }

  lemma StyleOfAI()
    ensures DetermineStyle(Reply("AI")) == "ai"
  {
    assert Lower("AI") == "ai" by {
      assert LowerChar('A') == 'a' && LowerChar('I') == 'i';
    }
    assert IsStripped("AI");
    StripFixedIff("AI");
  }

  /**
   * No catalogue check: a reply naming the catalogue entry "AI" yields "ai", which is not
   * in the catalogue.
   */
  lemma StyleIsNotValidated()
    ensures "AI" in DefaultConfig().styles
    ensures DetermineStyle(Reply("AI")) == "ai" && "ai" !in DefaultConfig().styles
  {
    CatalogueFacts();
    StyleOfAI();
  }

  lemma CatalogueFacts()
    ensures "AI" in Styles && "ai" !in Styles
  {
    assert Styles[10] == "AI";
  }

  /** Any stripped lower-case reply, named in the catalogue or not, becomes the style as it is. */
  lemma StyleAcceptsAnyNormalReply(text: string)
    requires IsStripped(text) && NoUpper(text)
    ensures DetermineStyle(Reply(text)) == text
  {
    NormalFormFixed(text);
  }

  /** A whitespace-only reply gives the empty style. */
  lemma BlankReplyGivesEmptyStyle(text: string)
    requires AllSpace(text)
    ensures DetermineStyle(Reply(text)) == ""
  {
    StripEmptyIff(text);
  }

  // ---------------------------------------------------------------------------
  // Title
  // ---------------------------------------------------------------------------

  /** `generate_title` after its call: the trimmed reply, or "我的<style>分享" when the call raised. */
  function GenerateTitle(reply: LlmOutcome, style: string): (title: string)
    ensures reply.Failure? ==> title == "我的" + style + "分享"
    ensures reply.Reply? ==> IsStripped(title) && |title| <= |reply.text|
  {
    match reply
    case Reply(text) => Strip(text)
    case Failure => "我的" + style + "分享"
  }

  /** The title is exactly the core of the reply; the fallback title names the style. */
  lemma TitleFromReply(pre: string, core: string, post: string, style: string)
    requires AllSpace(pre) && AllSpace(post) && IsStripped(core)
    ensures GenerateTitle(Reply(pre + core + post), style) == core
    ensures Contains(GenerateTitle(Failure, style), style)
  {
    StripExactly(pre, core, post);
    ContainsMiddle("我的", style, "分享");
  }

  // ---------------------------------------------------------------------------
  // Hashtags
  // ---------------------------------------------------------------------------

  function StripAll(pieces: seq<string>): (r: seq<string>)
    ensures |r| == |pieces|
    ensures forall k :: 0 <= k < |r| ==> r[k] == Strip(pieces[k])
  {
    seq(|pieces|, k requires 0 <= k < |pieces| => Strip(pieces[k]))
  }

  /** The non-empty strings, in order (`[tag for tag in tags if tag]`). */
  function DropEmpty(xs: seq<string>): (r: seq<string>)
    ensures |r| <= |xs|
    ensures forall k :: 0 <= k < |r| ==> r[k] != [] && r[k] in xs
    ensures (forall k :: 0 <= k < |xs| ==> xs[k] != []) ==> r == xs
  {
    if xs == [] then []
    else
      var rest := DropEmpty(xs[1..]);
      assert forall k :: 0 <= k < |rest| ==> rest[k] in xs;
      if xs[0] == [] then rest
      else
        assert xs == [xs[0]] + xs[1..];
        [xs[0]] + rest
  }

  /** Filtering respects concatenation, so it keeps the order of what it keeps. */
  lemma {:induction false} DropEmptyAppend(a: seq<string>, b: seq<string>)
    ensures DropEmpty(a + b) == DropEmpty(a) + DropEmpty(b)
  {
    if a != [] {
      assert (a + b)[1..] == a[1..] + b;
      DropEmptyAppend(a[1..], b);
    } else {
      assert a + b == b;
    }
  }

  /** Whitespace cannot introduce a character that was not there. */
  lemma StripKeepsOut(p: string, c: char)
    requires c !in p
    ensures c !in Strip(p)
  {
    var i, j := StripDecomposes(p);
  }

  /**
   * The reply post-processing of `_generate_hashtags`: split on commas, strip each piece,
   * drop the empty ones, keep at most the first eight.
   */
  function ParseHashtags(response: string): (tags: seq<string>)
    ensures |tags| <= MaxHashtags
    ensures forall k :: 0 <= k < |tags| ==> tags[k] != "" && IsStripped(tags[k]) && ',' !in tags[k]
  {
    var pieces := Split(response, ",");
    var kept := DropEmpty(StripAll(pieces));
    SplitPiecesAvoid(response, ',');
    forall k | 0 <= k < |pieces|
      ensures ',' !in Strip(pieces[k])
    {
      StripKeepsOut(pieces[k], ',');
    }
    kept[..Min(MaxHashtags, |kept|)]
  }

  /**
   * Tags written the way the prompt asks for them (comma-separated, each non-empty,
   * stripped and comma-free) are read back exactly, cut to the first eight.
   */
  lemma HashtagsRoundTrip(tags: seq<string>)
    requires |tags| > 0
    requires forall k :: 0 <= k < |tags| ==> tags[k] != "" && IsStripped(tags[k]) && ',' !in tags[k]
    ensures ParseHashtags(Join(tags, ",")) == tags[..Min(MaxHashtags, |tags|)]
  {
    var reply := Join(tags, ",");
    JoinSplit(tags, ',');
    assert Split(reply, ",") == tags;
    StripAllFixed(tags);
    assert DropEmpty(tags) == tags;
  }

  lemma StripAllFixed(xs: seq<string>)
    requires forall k :: 0 <= k < |xs| ==> IsStripped(xs[k])
    ensures StripAll(xs) == xs
  {
    forall k | 0 <= k < |xs|
      ensures Strip(xs[k]) == xs[k]
    {
      StripFixedIff(xs[k]);
    }
  }

  /** The list can be empty: a reply of ", ," gives no hashtags at all. */
  lemma HashtagsCanBeEmpty()
    ensures ParseHashtags(", ,") == []
  {
    var pieces := ["", " ", ""];
    assert Join(pieces, ",") == ", ,";
    JoinSplit(pieces, ',');
    assert Split(", ,", ",") == pieces;
    BlankStrips(pieces);
    assert StripAll(pieces) == ["", "", ""];
    assert DropEmpty(["", "", ""]) == [];
  }

  /** Pieces made only of whitespace all strip to the empty string. */
  lemma BlankStrips(pieces: seq<string>)
    requires forall k :: 0 <= k < |pieces| ==> AllSpace(pieces[k])
    ensures forall k :: 0 <= k < |StripAll(pieces)| ==> StripAll(pieces)[k] == ""
  {
    forall k | 0 <= k < |pieces|
      ensures Strip(pieces[k]) == ""
    {
      StripExactly(pieces[k], "", "");
      assert pieces[k] + "" + "" == pieces[k];
    }
  }

  /** `_generate_hashtags` after its call: the parsed reply, or a fixed list ending in the style. */
  function GenerateHashtags(reply: LlmOutcome, style: string): (tags: seq<string>)
    ensures reply.Failure? ==> tags == ["小红书", "分享", "推荐", style]
    ensures reply.Reply? ==> tags == ParseHashtags(reply.text)
    ensures |tags| <= MaxHashtags
  {
    match reply
    case Reply(text) => ParseHashtags(text)
    case Failure => ["小红书", "分享", "推荐", style]
  }

  // ---------------------------------------------------------------------------
  // Fallback content
  // ---------------------------------------------------------------------------

  lemma {:induction false} AreWordsPrefix(ws: seq<string>, n: nat)
    requires AreWords(ws) && n <= |ws|
    ensures AreWords(ws[..n])
  {
    if n > 0 {
      assert ws[..n][1..] == ws[1..][..n - 1];
      AreWordsPrefix(ws[1..], n - 1);
    }
  }

  /** The personalising sample: the first ten words, space-joined, when there are more than ten. */
  function SampleText(text: string): (sample: string)
    ensures |Words(text)| > 10 ==> Words(sample) == Words(text)[..10]
    ensures |Words(text)| <= 10 ==> sample == text
  {
    var words := Words(text);
    if |words| > 10 then
      AreWordsPrefix(words, 10);
      WordsOfJoin(words[..10]);
      Join(words[..10], " ")
    else text
  }

  /** The fixed text before the style, between style and sample, and after the sample. */
  const TemplateOpenings: seq<string> := ["今天发现了一个超棒的", "分享一下我最近超爱的", "偶然间发现的"]
  const TemplateMiddles: seq<string> := ["好物！", "心得！", "宝藏！"]
  const TemplateClosings: seq<string> := ["... 真的很推荐大家尝试一下～", "... 希望对你也有帮助～", "... 真的是相见恨晚！"]

  /**
   * `_generate_fallback_content`: template `pick` (the outcome of `random.choice`) filled
   * with the style and the sample of the extracted text.
   */
  function FallbackContent(text: string, style: string, pick: nat): (content: string)
    requires pick < 3
    ensures TemplateOpenings[pick] <= content
    ensures Contains(content, style) && Contains(content, SampleText(text))
    ensures |TemplateClosings[pick]| <= |content|
    ensures content[|content| - |TemplateClosings[pick]|..] == TemplateClosings[pick]
  {
    var sample := SampleText(text);
    var opening, middle, closing := TemplateOpenings[pick], TemplateMiddles[pick], TemplateClosings[pick];
    FiveParts(opening, style, middle, sample, closing);
    opening + style + middle + sample + closing
  }

  /** `_generate_content` after its call: the raw reply, or the fallback when the call raised. */
  function GenerateContent(reply: LlmOutcome, text: string, style: string, pick: nat): (content: string)
    requires pick < 3
    ensures reply.Reply? ==> content == reply.text
    ensures reply.Failure? ==> Contains(content, style) && Contains(content, SampleText(text))
  {
    match reply
    case Reply(t) => t
    case Failure => FallbackContent(text, style, pick)
  }

  // ---------------------------------------------------------------------------
  // Emojis
  // ---------------------------------------------------------------------------

  /** `self.emoji_sets.get(post_style, <default list>)` */
  function StyleEmojis(cfg: Config, style: string): seq<string> {
    if style in cfg.emojiSets then cfg.emojiSets[style] else DefaultEmojis
  }

  /**
   * `random.sample(pool, k)`: `k` draws without replacement.  Draw `i` takes position
   * `draws[i] % |what is left|` (0 once the supplied draws run out).
   */
  function Sample<T>(pool: seq<T>, k: nat, draws: seq<nat>): (r: seq<T>)
    requires k <= |pool|
    ensures |r| == k
    ensures multiset(r) <= multiset(pool)
    decreases k
  {
    if k == 0 then []
    else
      var i := (if |draws| > 0 then draws[0] else 0) % |pool|;
      var left := pool[..i] + pool[i + 1..];
      assert pool == pool[..i] + [pool[i]] + pool[i + 1..];
      assert multiset(pool) == multiset(left) + multiset{pool[i]};
      [pool[i]] + Sample(left, k - 1, if |draws| > 0 then draws[1..] else [])
  }

  /**
   * `_get_emojis`: `min(count, len)` emojis drawn without replacement from the style's set
   * (the default set for a style without one); two fixed emojis if that set is empty.
   */
  function GetEmojis(cfg: Config, style: string, count: nat, draws: seq<nat>): (emojis: seq<string>)
    ensures |StyleEmojis(cfg, style)| > 0 ==>
      |emojis| == Min(count, |StyleEmojis(cfg, style)|) && multiset(emojis) <= multiset(StyleEmojis(cfg, style))
    ensures |StyleEmojis(cfg, style)| == 0 ==> emojis == ["✨", "💫"]
  {
    var pool := StyleEmojis(cfg, style);
    if |pool| > 0 then Sample(pool, Min(count, |pool|), draws) else ["✨", "💫"]
  }

  /** Seven emojis, no two alike. */
  predicate SevenDistinct(emojis: seq<string>) {
    |emojis| == 7 && NoDups(emojis)
  }

  /** Every set of the default configuration, and the default set, lists seven different emojis. */
  lemma DefaultEmojiSetsDistinct(style: string)
    ensures SevenDistinct(StyleEmojis(DefaultConfig(), style))
  {
    if style == "lifestyle" {
      EmojiSetsDistinct1();
    } else if style == "fashion" {
      EmojiSetsDistinct1();
    } else if style == "beauty" {
      EmojiSetsDistinct1();
    } else if style == "food" {
      EmojiSetsDistinct1();
    } else if style == "travel" {
      EmojiSetsDistinct1();
    } else if style == "fitness" {
      EmojiSetsDistinct1();
    } else if style == "home decor" {
      EmojiSetsDistinct2();
    } else if style == "snowboarding" {
      EmojiSetsDistinct2();
    } else if style == "bouldering" {
      EmojiSetsDistinct2();
    } else if style == "archery" {
      EmojiSetsDistinct2();
    } else if style == "AI" {
      EmojiSetsDistinct2();
    } else if style == "news" {
      EmojiSetsDistinct2();
    } else if style == "exhibitions" {
      EmojiSetsDistinct3();
    } else if style == "concerts" {
      EmojiSetsDistinct3();
    } else if style == "plays" {
      EmojiSetsDistinct3();
    } else if style == "films" {
      EmojiSetsDistinct3();
    } else if style == "series" {
      EmojiSetsDistinct3();
    } else {
      assert style !in EmojiSets;
    }
  }

  lemma EmojiSetsDistinct1()
    ensures SevenDistinct(EmojiSets["lifestyle"]) && SevenDistinct(EmojiSets["fashion"]) && SevenDistinct(EmojiSets["beauty"])
    ensures SevenDistinct(EmojiSets["food"]) && SevenDistinct(EmojiSets["travel"]) && SevenDistinct(EmojiSets["fitness"])
  {
    assert SevenDistinct(EmojiSets["lifestyle"]);
    assert SevenDistinct(EmojiSets["fashion"]);
    assert SevenDistinct(EmojiSets["beauty"]);
    assert SevenDistinct(EmojiSets["food"]);
    assert SevenDistinct(EmojiSets["travel"]);
    assert SevenDistinct(EmojiSets["fitness"]);
  }

  lemma EmojiSetsDistinct2()
    ensures SevenDistinct(EmojiSets["home decor"]) && SevenDistinct(EmojiSets["snowboarding"]) && SevenDistinct(EmojiSets["bouldering"])
    ensures SevenDistinct(EmojiSets["archery"]) && SevenDistinct(EmojiSets["AI"]) && SevenDistinct(EmojiSets["news"])
  {
    assert SevenDistinct(EmojiSets["home decor"]);
    assert SevenDistinct(EmojiSets["snowboarding"]);
    assert SevenDistinct(EmojiSets["bouldering"]);
    assert SevenDistinct(EmojiSets["archery"]);
    assert SevenDistinct(EmojiSets["AI"]);
    assert SevenDistinct(EmojiSets["news"]);
  }

  lemma EmojiSetsDistinct3()
    ensures SevenDistinct(EmojiSets["exhibitions"]) && SevenDistinct(EmojiSets["concerts"]) && SevenDistinct(EmojiSets["plays"])
    ensures SevenDistinct(EmojiSets["films"]) && SevenDistinct(EmojiSets["series"])
  {
    assert SevenDistinct(EmojiSets["exhibitions"]);
    assert SevenDistinct(EmojiSets["concerts"]);
    assert SevenDistinct(EmojiSets["plays"]);
    assert SevenDistinct(EmojiSets["films"]);
    assert SevenDistinct(EmojiSets["series"]);
  }


  /** With the default configuration the selected emojis are distinct, and there are min(count, 7). */
  lemma DefaultEmojisAreDistinct(style: string, count: nat, draws: seq<nat>)
    ensures |GetEmojis(DefaultConfig(), style, count, draws)| == Min(count, 7)
    ensures NoDups(GetEmojis(DefaultConfig(), style, count, draws))
  {
    DefaultEmojiSetsDistinct(style);
    SubMultisetNoDups(GetEmojis(DefaultConfig(), style, count, draws), StyleEmojis(DefaultConfig(), style));
  }

  /** "tech" has no set, and neither has "ai": the set is keyed "AI". */
  lemma LowerCaseStylesMissEmojiSets()
    ensures StyleEmojis(DefaultConfig(), "tech") == DefaultEmojis
    ensures StyleEmojis(DefaultConfig(), "ai") == DefaultEmojis
    ensures StyleEmojis(DefaultConfig(), "AI") != DefaultEmojis
  {
    EmojiSetKeys();
  }

  /** A reply naming the catalogue entry "AI" therefore gets the default emoji set. */
  lemma AIReplyGetsDefaultEmojis()
    ensures StyleEmojis(DefaultConfig(), DetermineStyle(Reply("AI"))) == DefaultEmojis
  {
    StyleOfAI();
    LowerCaseStylesMissEmojiSets();
  }

  lemma EmojiSetKeys()
    ensures "tech" !in EmojiSets && "ai" !in EmojiSets
    ensures "AI" in EmojiSets && EmojiSets["AI"] != DefaultEmojis
  {
  }

  // ---------------------------------------------------------------------------
  // Post formatting
  // ---------------------------------------------------------------------------

  /** The random outcome for one paragraph: leave it, or put emoji number `pick` before or after it. */
  datatype Decoration = Plain | Prepend(pick: nat) | Append(pick: nat)

  /** All whitespace: exactly the paragraphs whose `strip()` is empty. */
  predicate IsBlank(p: string) {
    AllSpace(p)
  }

  /** Blank is what `paragraph.strip()` reports as empty. */
  lemma BlankIsStrippedEmpty(p: string)
    ensures IsBlank(p) <==> Strip(p) == ""
  {
    StripEmptyIff(p);
  }


  /** One paragraph after the emoji step; without emojis nothing is attached. */
  function Decorate(p: string, d: Decoration, emojis: seq<string>): string {
    if emojis == [] then p
    else
      match d
      case Plain => p
      case Prepend(k) => emojis[k % |emojis|] + " " + p
      case Append(k) => p + " " + emojis[k % |emojis|]
  }

  /** `q` is `p` as it is, or with one of `emojis` and a space before or after it. */
  ghost predicate IsDecorationOf(q: string, p: string, emojis: seq<string>) {
    q == p || exists e :: e in emojis && (q == e + " " + p || q == p + " " + e)
  }

  /** The non-blank paragraphs, in order. */
  function NonBlank(paragraphs: seq<string>): (r: seq<string>)
    decreases |paragraphs|
  {
    if paragraphs == [] then []
    else
      var n := |paragraphs| - 1;
      NonBlank(paragraphs[..n]) + (if IsBlank(paragraphs[n]) then [] else [paragraphs[n]])
  }

  /**
   * The paragraphs `_format_post` collects: the non-blank ones, each decorated by the
   * decision for its position in `paragraphs`.
   */
  function FormattedParagraphs(paragraphs: seq<string>, emojis: seq<string>, decide: nat -> Decoration): seq<string>
    decreases |paragraphs|
  {
    if paragraphs == [] then []
    else
      var n := |paragraphs| - 1;
      var done := FormattedParagraphs(paragraphs[..n], emojis, decide);
      if IsBlank(paragraphs[n]) then done else done + [Decorate(paragraphs[n], decide(n), emojis)]
  }

  /** The post text `_format_post` returns. */
  function FormattedPost(content: string, hashtags: seq<string>, emojis: seq<string>, decide: nat -> Decoration): string {
    Join(FormattedParagraphs(Split(content, "\n\n"), emojis, decide), "\n\n") + "\n\n" + Join(hashtags, " ")
  }

  /** `_format_post` */
  method FormatPost(content: string, hashtags: seq<string>, emojis: seq<string>, decide: nat -> Decoration)
    returns (post: string)
    ensures post == FormattedPost(content, hashtags, emojis, decide)
  {
    var paragraphs := Split(content, "\n\n");
    var formatted: seq<string> := [];
    var i := 0;
    while i < |paragraphs|
      invariant 0 <= i <= |paragraphs|
      invariant formatted == FormattedParagraphs(paragraphs[..i], emojis, decide)
    {
      FormattedParagraphsStep(paragraphs, i, emojis, decide);
      var paragraph := paragraphs[i];
      BlankIsStrippedEmpty(paragraph);
      if Strip(paragraph) != "" {
        var d := decide(i);
        if |emojis| > 0 && !d.Plain? {
          var emoji := emojis[d.pick % |emojis|];
          if d.Prepend? {
            paragraph := emoji + " " + paragraph;
          } else {
            paragraph := paragraph + " " + emoji;
          }
        }
        assert paragraph == Decorate(paragraphs[i], d, emojis);
        formatted := formatted + [paragraph];
      }
      i := i + 1;
    }
    assert paragraphs[..i] == paragraphs;
    post := Join(formatted, "\n\n") + "\n\n" + Join(hashtags, " ");
  }

  /** One more paragraph adds its decorated form, unless it is blank. */
  lemma FormattedParagraphsStep(paragraphs: seq<string>, i: nat, emojis: seq<string>, decide: nat -> Decoration)
    requires i < |paragraphs|
    ensures FormattedParagraphs(paragraphs[..i + 1], emojis, decide)
         == FormattedParagraphs(paragraphs[..i], emojis, decide)
          + (if IsBlank(paragraphs[i]) then [] else [Decorate(paragraphs[i], decide(i), emojis)])
  {
    assert paragraphs[..i + 1][..i] == paragraphs[..i];
  }

  /** Exactly the non-blank paragraphs survive, in order, each as it was or with one emoji attached. */
  lemma {:induction false} FormattedParagraphsShape(paragraphs: seq<string>, emojis: seq<string>, decide: nat -> Decoration)
    ensures |FormattedParagraphs(paragraphs, emojis, decide)| == |NonBlank(paragraphs)|
    ensures forall j :: 0 <= j < |NonBlank(paragraphs)| ==>
      IsDecorationOf(FormattedParagraphs(paragraphs, emojis, decide)[j], NonBlank(paragraphs)[j], emojis)
    ensures emojis == [] ==> FormattedParagraphs(paragraphs, emojis, decide) == NonBlank(paragraphs)
    decreases |paragraphs|
  {
    if paragraphs != [] {
      var n := |paragraphs| - 1;
      var p := paragraphs[n];
      FormattedParagraphsShape(paragraphs[..n], emojis, decide);
      if !IsBlank(p) && emojis != [] {
        var d := decide(n);
        if !d.Plain? {
          assert emojis[d.pick % |emojis|] in emojis;
        }
      }
    }
  }

  /** Non-blank filtering respects concatenation, so it keeps the order of what it keeps. */
  lemma {:induction false} NonBlankAppend(a: seq<string>, b: seq<string>)
    ensures NonBlank(a + b) == NonBlank(a) + NonBlank(b)
    decreases |b|
  {
    if b == [] {
      assert a + b == a;
    } else {
      var n := |b| - 1;
      assert (a + b)[..|a + b| - 1] == a + b[..n];
      NonBlankAppend(a, b[..n]);
    }
  }

  /** What is kept is non-blank. */
  lemma {:induction false} NonBlankOnlyNonBlank(paragraphs: seq<string>)
    ensures forall j :: 0 <= j < |NonBlank(paragraphs)| ==> !IsBlank(NonBlank(paragraphs)[j])
    decreases |paragraphs|
  {
    if paragraphs != [] {
      var n := |paragraphs| - 1;
      NonBlankOnlyNonBlank(paragraphs[..n]);
    }
  }

  /** Nothing non-blank is dropped. */
  lemma {:induction false} NonBlankKeepsAll(paragraphs: seq<string>)
    requires forall k :: 0 <= k < |paragraphs| ==> !IsBlank(paragraphs[k])
    ensures NonBlank(paragraphs) == paragraphs
    decreases |paragraphs|
  {
    if paragraphs != [] {
      var n := |paragraphs| - 1;
      NonBlankKeepsAll(paragraphs[..n]);
      assert paragraphs[..n] + [paragraphs[n]] == paragraphs;
    }
  }

  /** The post always ends with a blank line and the space-joined hashtags. */
  lemma FormattedPostEnds(content: string, hashtags: seq<string>, emojis: seq<string>, decide: nat -> Decoration)
    ensures var post := FormattedPost(content, hashtags, emojis, decide);
      var tail := "\n\n" + Join(hashtags, " ");
      |tail| <= |post| && post[|post| - |tail|..] == tail
  {
    var body := Join(FormattedParagraphs(Split(content, "\n\n"), emojis, decide), "\n\n");
    var tail := "\n\n" + Join(hashtags, " ");
    EndsWithLastTwo(body, "\n\n", Join(hashtags, " "));
  }

  /** Without emojis and without blank paragraphs the content comes through unchanged. */
  lemma FormattedPostKeepsContent(content: string, hashtags: seq<string>, decide: nat -> Decoration)
    requires forall k :: 0 <= k < |Split(content, "\n\n")| ==> !IsBlank(Split(content, "\n\n")[k])
    ensures FormattedPost(content, hashtags, [], decide) == content + "\n\n" + Join(hashtags, " ")
  {
    var paragraphs := Split(content, "\n\n");
    FormattedParagraphsShape(paragraphs, [], decide);
    NonBlankKeepsAll(paragraphs);
    SplitJoin(content, "\n\n");
  }

  // ---------------------------------------------------------------------------
  // generate_post
  // ---------------------------------------------------------------------------

  /** The first 300 characters of the content, as the hashtag prompt quotes them. */
  function Excerpt(content: string): (excerpt: string)
    ensures excerpt <= content && |excerpt| == Min(ExcerptLength, |content|)
  {
    content[..Min(ExcerptLength, |content|)]
  }

  /**
   * The four prompts `generate_post` sends, in the order it sends them, given the
   * values the earlier steps produced.
   */
  function PromptsIssued(cfg: Config, data: ImageData, userQuery: string, post: Post): seq<Prompt> {
    var text := data.text.GetOr("");
    [ StylePrompt(text, userQuery, cfg.styles),
      ContentPrompt(text, post.style, userQuery),
      TitlePrompt(post.content, post.style, userQuery),
      HashtagPrompt(Excerpt(post.content), post.style, userQuery) ]
  }

  /**
   * `generate_post`: style, then content, then title, then hashtags, the one style value
   * reaching the three later steps; `pick` is the fallback template `random.choice` takes.
   */
  function GeneratePost(cfg: Config, data: ImageData, userQuery: string, llm: Llm, pick: nat): (post: Post)
    requires pick < 3
    ensures var calls := PromptsIssued(cfg, data, userQuery, post);
      && post.style == DetermineStyle(llm(calls[0]))
      && post.content == GenerateContent(llm(calls[1]), data.text.GetOr(""), post.style, pick)
      && post.title == GenerateTitle(llm(calls[2]), post.style)
      && post.hashtags == GenerateHashtags(llm(calls[3]), post.style)
  {
    var text := data.text.GetOr("");
    var style := DetermineStyle(llm(StylePrompt(text, userQuery, cfg.styles)));
    var content := GenerateContent(llm(ContentPrompt(text, style, userQuery)), text, style, pick);
    var title := GenerateTitle(llm(TitlePrompt(content, style, userQuery)), style);
    var hashtags := GenerateHashtags(llm(HashtagPrompt(Excerpt(content), style, userQuery)), style);
    Post(title, content, hashtags, style)
  }

  /** A missing "text" key behaves as the empty text. */
  lemma MissingTextIsEmpty(cfg: Config, userQuery: string, llm: Llm, pick: nat)
    requires pick < 3
    ensures GeneratePost(cfg, ImageData(None), userQuery, llm, pick)
         == GeneratePost(cfg, ImageData(Some("")), userQuery, llm, pick)
  {
  }

  /** With every call failing, each field is its fallback, all built on "lifestyle". */
  lemma AllCallsFail(cfg: Config, data: ImageData, userQuery: string, llm: Llm, pick: nat)
    requires pick < 3
    requires forall p :: llm(p) == Failure
    ensures var post := GeneratePost(cfg, data, userQuery, llm, pick);
      && post.style == "lifestyle"
      && post.title == "我的lifestyle分享"
      && post.hashtags == ["小红书", "分享", "推荐", "lifestyle"]
      && post.content == FallbackContent(data.text.GetOr(""), "lifestyle", pick)
  {
    var post := GeneratePost(cfg, data, userQuery, llm, pick);
    var calls := PromptsIssued(cfg, data, userQuery, post);
    assert llm(calls[0]) == Failure && llm(calls[1]) == Failure;
    assert llm(calls[2]) == Failure && llm(calls[3]) == Failure;
    assert post.style == FallbackStyle;
    FallbackTitle();
  }

  lemma FallbackTitle()
    ensures GenerateTitle(Failure, FallbackStyle) == "我的lifestyle分享"
  {
    assert "我的" + "lifestyle" + "分享" == "我的lifestyle分享";
  }

  /** When only the content call fails, the content is a template naming the chosen style. */
  lemma ContentFallbackNamesStyle(cfg: Config, data: ImageData, userQuery: string, llm: Llm, pick: nat)
    requires pick < 3
    requires forall t, s, q :: llm(ContentPrompt(t, s, q)) == Failure
    ensures var post := GeneratePost(cfg, data, userQuery, llm, pick);
      Contains(post.content, post.style) && Contains(post.content, SampleText(data.text.GetOr("")))
  {
  }

  /** At most eight hashtags, and none empty whenever the hashtag call answers. */
  lemma HashtagBounds(cfg: Config, data: ImageData, userQuery: string, llm: Llm, pick: nat)
    requires pick < 3
    ensures var post := GeneratePost(cfg, data, userQuery, llm, pick);
      && |post.hashtags| <= MaxHashtags
      && (llm(PromptsIssued(cfg, data, userQuery, post)[3]).Reply? ==>
            forall k :: 0 <= k < |post.hashtags| ==> post.hashtags[k] != "")
  {
  }

  /** A hashtag reply of ", ," leaves the post without hashtags. */
  lemma HashtagsMayBeEmpty(cfg: Config, data: ImageData, userQuery: string, llm: Llm, pick: nat)
    requires pick < 3
    requires forall e, s, q :: llm(HashtagPrompt(e, s, q)) == Reply(", ,")
    ensures GeneratePost(cfg, data, userQuery, llm, pick).hashtags == []
  {
    var post := GeneratePost(cfg, data, userQuery, llm, pick);
    var calls := PromptsIssued(cfg, data, userQuery, post);
    assert llm(calls[3]) == Reply(", ,");
    HashtagsCanBeEmpty();
  }

  /** A whitespace-only style reply and a failing hashtag call give a fallback list with an empty tag. */
  lemma FallbackHashtagMayBeEmpty(cfg: Config, data: ImageData, userQuery: string, llm: Llm, pick: nat, blank: string)
    requires pick < 3 && AllSpace(blank)
    requires forall t, q, c :: llm(StylePrompt(t, q, c)) == Reply(blank)
    requires forall e, s, q :: llm(HashtagPrompt(e, s, q)) == Failure
    ensures GeneratePost(cfg, data, userQuery, llm, pick).hashtags == ["小红书", "分享", "推荐", ""]
  {
    var post := GeneratePost(cfg, data, userQuery, llm, pick);
    var calls := PromptsIssued(cfg, data, userQuery, post);
    assert llm(calls[0]) == Reply(blank) && llm(calls[3]) == Failure;
    BlankReplyGivesEmptyStyle(blank);
  }
}
