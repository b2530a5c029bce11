# Xiaohongshu post generator: verified model of its deterministic core

The repository turns a screenshot into a Xiaohongshu (小红书) post. An OCR model reads the
text off the image, and a chat-completion model writes a style, a body, a title and hashtags
for it. This project models the deterministic logic between those foreign calls, and proves
what that logic guarantees.

- `PostGenerator.dfy` models `PostGenerator` in post_generator.py:
  - how each reply of the chat model is cleaned up (style, title, hashtags);
  - what each step falls back to when its call raises;
  - the fallback body built from the first ten words of the extracted text;
  - the emoji selection and paragraph formatting helpers;
  - how `generate_post` sends its four prompts in order and threads one style value
    through them.
- `ImageProcessor.dfy` models `ImageProcessor` in image_processor.py:
  - how `_extract_text` assembles text blocks and the document text from what the
    detector and recogniser report, with its catch-all fallback;
  - how `_get_dominant_colors` ranks the sampled colours;
  - how `_analyze_image` derives dimensions, aspect ratio, average colour and brightness.
- `Text.dfy` holds the Python string operations the core relies on: `isspace`, `strip`,
  `lower`, `split(sep)`, `split()`, `join` and `in`. Each comes with the lemmas the proofs
  need, such as split/join round trips and the exact result of stripping.
- `Common.dfy` holds an option type, `min` and facts about duplicate-free sequences.

Foreign services become inputs:
- The chat model is a function `Llm` from the values a prompt interpolates to
  `Reply(text)` or `Failure`.
- The OCR models are a `Detection`: a failure, or the detected boxes in order, each with its
  recognised lines or a failure.
- The image is a `Raster`: its size, its channel layout and its pixels in row-major order.
- Every use of `random` is a choice the caller supplies:
  - `pick` for the template;
  - `draws` for `random.sample`;
  - `decide(i)` for paragraph `i`.

`_format_post` and `_extract_text` build their lists in loops. They are modelled as methods
with loops (`PostGenerator.FormatPost`, `ImageProcessor.ExtractText`), each proved equal to a
specification function. The properties are proved about those functions. The rest of the
core is expression pipelines and is modelled as functions.

## Model

| member | source | states |
|---|---|---|
| PostGenerator.DetermineStyle | post_generator.py:164-187 | A reply gives a style with no surrounding whitespace and no upper-case letter, no longer than the reply; a failed call gives "lifestyle" |
| PostGenerator.StyleFromReply | post_generator.py:169 | The style is exactly the lower-cased core of the reply, whatever whitespace surrounds it |
| PostGenerator.StyleIdempotent | post_generator.py:169 | Feeding a style back as a reply returns it unchanged |
| PostGenerator.StyleAcceptsAnyNormalReply | post_generator.py:169-182 | Any stripped lower-case reply becomes the style as it is, whether or not the catalogue names it |
| PostGenerator.StyleIsNotValidated | post_generator.py:169-182 | The catalogue entry "AI" as a reply yields "ai", which is not in the catalogue: the result is never checked against it |
| PostGenerator.BlankReplyGivesEmptyStyle | post_generator.py:169 | A whitespace-only reply gives the empty style |
| PostGenerator.GenerateTitle | post_generator.py:327-343 | A reply gives a stripped title no longer than the reply; a failed call gives "我的" + style + "分享" |
| PostGenerator.TitleFromReply | post_generator.py:332-343 | The title is exactly the core of the reply; the fallback title contains the style |
| PostGenerator.DropEmpty | post_generator.py:274 | Keeps only non-empty strings, each taken from the input, and keeps everything when nothing is empty |
| PostGenerator.DropEmptyAppend | post_generator.py:274 | The filter distributes over concatenation, so kept tags stay in their original order |
| PostGenerator.ParseHashtags | post_generator.py:271-276 | At most 8 tags; each non-empty, stripped and free of commas |
| PostGenerator.HashtagsRoundTrip | post_generator.py:271-276 | Non-empty, stripped, comma-free tags joined by commas are read back exactly, cut to the first 8 |
| PostGenerator.HashtagsCanBeEmpty | post_generator.py:271-274 | The reply ", ," gives no hashtags at all |
| PostGenerator.GenerateHashtags | post_generator.py:266-281 | A failed call gives exactly ["小红书", "分享", "推荐", style]; otherwise the parsed reply; never more than 8 tags |
| PostGenerator.SampleText | post_generator.py:472-473 | With more than ten words the sample's words are exactly the first ten; otherwise the text is unchanged |
| PostGenerator.FallbackContent | post_generator.py:475-481 | The chosen template starts with its opening, contains the style and the sample, and ends with its closing |
| PostGenerator.GenerateContent | post_generator.py:366-416 | A reply is returned unchanged; a failed call gives a fallback that contains the style and the sample |
| PostGenerator.Sample | post_generator.py:500 | `random.sample` returns k elements drawn from the pool without replacement (a sub-multiset) |
| PostGenerator.GetEmojis | post_generator.py:494-504 | min(count, len(set)) emojis drawn from the style's set (or the default set), and ["✨", "💫"] for an empty set |
| PostGenerator.DefaultEmojiSetsDistinct | post_generator.py:52-70 | Every emoji set of the configuration, and the default set, has seven different emojis |
| PostGenerator.DefaultEmojisAreDistinct | post_generator.py:494-504 | With the configured sets the selection has min(count, 7) pairwise-distinct emojis |
| PostGenerator.LowerCaseStylesMissEmojiSets | post_generator.py:494 | "tech" and "ai" get the default set, while the key "AI" has its own set |
| PostGenerator.AIReplyGetsDefaultEmojis | post_generator.py:169 | A style reply of "AI" ends up with the default emoji set, because the style is lower-cased before the lookup |
| PostGenerator.BlankIsStrippedEmpty | post_generator.py:523 | A paragraph is dropped exactly when `strip()` leaves nothing of it |
| PostGenerator.FormatPost | post_generator.py:506-542 | The loop builds exactly the specified post: the non-blank paragraphs, each decorated by its decision, joined by blank lines, then the hashtags |
| PostGenerator.FormattedParagraphsShape | post_generator.py:519-531 | Exactly as many paragraphs as non-blank ones survive, in order, each unchanged or with one of the emojis and a space before or after it; with no emojis all are unchanged |
| PostGenerator.NonBlankAppend | post_generator.py:522-531 | Dropping blank paragraphs distributes over concatenation, so the order of the kept ones is preserved |
| PostGenerator.NonBlankOnlyNonBlank | post_generator.py:523 | No blank paragraph is kept |
| PostGenerator.NonBlankKeepsAll | post_generator.py:523 | No non-blank paragraph is dropped |
| PostGenerator.FormattedPostEnds | post_generator.py:534-540 | The post always ends with a blank line followed by the space-joined hashtags |
| PostGenerator.FormattedPostKeepsContent | post_generator.py:519-540 | Without emojis and blank paragraphs the content comes through unchanged before the hashtags |
| PostGenerator.Excerpt | post_generator.py:259 | The hashtag prompt quotes a prefix of the content of length min(300, len) |
| PostGenerator.GeneratePost | post_generator.py:105-138 | Each field is its step applied to the outcome of its own prompt; the prompts go out in the order style, content, title, hashtags; the one style value reaches the three later steps |
| PostGenerator.MissingTextIsEmpty | post_generator.py:117 | A missing "text" key behaves exactly as the empty text |
| PostGenerator.AllCallsFail | post_generator.py:105-138 | With every call failing the post is the fallback on "lifestyle" in every field |
| PostGenerator.ContentFallbackNamesStyle | post_generator.py:125 | When the content call fails, the content contains the chosen style and the sample of the text |
| PostGenerator.HashtagBounds | post_generator.py:131 | At most 8 hashtags, none empty whenever the hashtag call answers |
| PostGenerator.HashtagsMayBeEmpty | post_generator.py:131 | A hashtag reply of ", ," leaves the post with no hashtags |
| PostGenerator.FallbackHashtagMayBeEmpty | post_generator.py:122-131 | A whitespace-only style reply and a failed hashtag call give ["小红书", "分享", "推荐", ""] |
| Text.StripExactly | post_generator.py:169 | `strip` removes exactly the leading and trailing whitespace and nothing else |
| Text.StripEmptyIff | post_generator.py:523 | `strip` gives "" exactly for whitespace-only strings |
| Text.SplitJoin | post_generator.py:519 | Joining the pieces of `split(sep)` with `sep` gives back the string |
| Text.JoinSplit | post_generator.py:271 | Splitting separator-free parts joined by a one-character separator gives back the parts |
| Text.WordsOfJoin | post_generator.py:472-473 | The words of words joined by single spaces are those words |
| ImageProcessor.Ocr | image_processor.py:77-118 | A failed detection or recognition gives exactly the empty result; no block has empty text; the text is "" exactly when there are no blocks |
| ImageProcessor.ExtractText | image_processor.py:77-118 | The loop over the boxes, returning early on a failed recognition, computes exactly the specified result |
| ImageProcessor.BlocksNonEmpty | image_processor.py:97-103 | Every block has a non-empty text |
| ImageProcessor.BlocksAppend | image_processor.py:85-103 | The blocks of consecutive runs of boxes are the blocks of each run in turn: detection order is kept |
| ImageProcessor.BlocksOnePerRegion | image_processor.py:85-103 | When every box has text there is one block per box, in order, carrying its box unchanged |
| ImageProcessor.RegionSkippedIff | image_processor.py:94-97 | A box is skipped exactly when it has no line or a single empty line |
| ImageProcessor.TwoEmptyLinesKept | image_processor.py:94-97 | Two empty lines are kept as the block text " " |
| ImageProcessor.Sampled | image_processor.py:180 | The sample is the pixels at positions 0, 100, 200, ..., ceil(n / 100) of them |
| ImageProcessor.InsertByCount | image_processor.py:187-188 | Inserting by count keeps the list in non-increasing count order and adds exactly one occurrence of the colour |
| ImageProcessor.RankByCount | image_processor.py:184-188 | The ranking is a permutation of the distinct colours in non-increasing count order |
| ImageProcessor.DominantColors | image_processor.py:177-191 | min(5, number of distinct sampled colours) colours, pairwise distinct, each in the sample, with non-increasing counts |
| ImageProcessor.DominantColorsAreMostFrequent | image_processor.py:187-191 | A sampled colour left out occurs no more often than any colour kept |
| ImageProcessor.DominantColorsArePixels | image_processor.py:177-191 | Every dominant colour is a pixel of the image, so it has shape[2] components |
| ImageProcessor.ChannelTotalBounds | image_processor.py:139 | With 8-bit values a channel total lies between 0 and 255 per pixel |
| ImageProcessor.AverageColorBounds | image_processor.py:139 | With 8-bit pixels every channel average lies between 0 and 255 |
| ImageProcessor.AverageColor | image_processor.py:139 | One exact mean per channel, each times the pixel count giving the channel total; none when there are no pixels |
| ImageProcessor.IsBright | image_processor.py:142-143 | The brightness flag is the integer 0 or 1 |
| ImageProcessor.IsBrightIffMeanAbove127 | image_processor.py:142-143 | The flag is 1 exactly when the mean of the first three channel averages is strictly above 127 |
| ImageProcessor.UniformGreyBrightness | image_processor.py:142-143 | An image of uniform grey level v is bright exactly when v > 127, so 127 itself is dark |
| ImageProcessor.AspectRatio | image_processor.py:156 | width / height when height > 0 (ratio times height is width), else 0 |
| ImageProcessor.ColorAnalysis | image_processor.py:137-146 | Averages, brightness flag and dominant colours with shape[2] components, at most five of them |
| ImageProcessor.AnalyzeImage | image_processor.py:120-163 | The size is passed through with the guarded aspect ratio; with fewer than three channels the colour info is [0, 0, 0], not bright, no dominant colours; otherwise the colour analysis, with NaN averages exactly for an empty image |
| ImageProcessor.EmptyColorImage | image_processor.py:137-150 | An empty image in the colour branch gives NaN averages, not bright, and no dominant colours |

## Left out

- `_call_llm` and the Zhipu client are a network call. Each call is an input outcome,
  `Reply(text)` or `Failure`.
- The prose of the prompt templates is constant text. A `Prompt` carries only the values it
  interpolates.
- The Surya detector and recogniser are ML models. Their output is an input; a box's lines
  are taken as strings, so a recogniser line without text is folded into "recognition
  failed".
- `process_image` is left out: it writes and deletes a temporary file and merges the two
  dictionaries.
- PIL (`Image.open`, `crop`, `image.size`) and the numpy array conversion are left out. The
  raster is an input.
- server.py is left out: it is HTTP download and tool registration around the two classes.
- extract_text.py is left out: it is a command-line driver duplicating `_extract_text`'s loop.
  Its verbose success path refers to an undefined `language` and so always ends in its
  error handler.
- Logging and `print` are left out.
- The random number generator is left out. Its outcomes are parameters, and the order in
  which `_format_post` consumes them is not modelled. `random.sample` is modelled as
  repeated removal at a supplied index.
- Text.Lower: lower-cases ASCII letters only. Python's `str.lower` covers all of Unicode.
- ImageProcessor.AverageColor: means are exact rationals, not float64. A NaN mean (empty
  image) is `None`. Rounding near the threshold 127 is not modelled.
- ImageProcessor.AspectRatio: exact rational instead of a float division; the source's else
  branch returns the integer `0` (image_processor.py:156), modelled as `0.0`.
- ImageProcessor.AnalyzeImage: the `[0, 0, 0]` of the no-colour branch is integers in the
  source and `0.0` reals here.
- ImageProcessor.RankByCount: `np.unique` sorts colours lexicographically and `argsort` is
  not stable. The model breaks ties in its own way, and its contracts do not fix tie order.
- PostGenerator.GeneratePost: assumes "text" is a string or absent and "analysis" is a
  dictionary or absent. A non-dictionary "analysis" makes `_create_prompt` raise
  (post_generator.py:439), so the content is always the fallback and no content prompt is
  sent; a non-string "text" such as null makes `split()` raise in the content fallback
  (post_generator.py:472), and that error escapes `generate_post`. Neither case is modelled.
- `_generate_content` and `_create_prompt` are modelled only as far as `generate_post` sees
  them: the reply is returned raw, or the fallback on failure. Text blocks and the analysis
  do not reach the prompt.
- Where the code departs from what its own text suggests, the model follows the code:
  - the hashtag prompt asks for 5 to 8 tags (post_generator.py:237), yet the list can be
    empty, for the reply ", ,";
  - the fallback hashtag list ends with the style, which is "" after a whitespace-only
    style reply (post_generator.py:169, post_generator.py:281);
  - `_get_dominant_colors` documents "RGB values" (image_processor.py:174), yet a colour has
    as many components as the array's third axis, 4 for RGBA.
