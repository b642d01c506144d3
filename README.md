# Swanwick theme filters, modelled in Dafny

Swanwick is a WordPress theme. Its `functions.php` registers a few filter
callbacks whose behaviour can be stated precisely. This project models those
callbacks and proves properties of them:

- **Fallback featured image** (`swanwick_fake_featured_image`). On listing
  views, a post without featured-image markup gets an image from its content.
  The filter scans the content for the first image or gallery block marker,
  `/<!-- wp:(image|gallery) {"ids?":\[?(\d+),/`. If the captured attachment's
  mime type contains `image`, it memoises the id in the post meta
  `swanwick_fake_thumbnail_id` and renders it. Later calls read the meta and
  skip the scan. This is modelled as the class `FakeThumbnail.PostMetaStore`:
  the post meta is a `map` field, and the method `FakeFeaturedImage` follows the
  source step by step. The method is proved against the value-level function
  `FakeThumbnail.Resolve`, and the lemmas state Resolve's properties.
- **Print call to action** (`pj_hey_get_a_print_already`). On a single post in
  the Photos category, the filter appends a fixed paragraph unless `print`
  occurs together with `buy` or `interested in`. A keyword counts only when its
  first occurrence, ignoring case, is past offset 0 (see "## Findings").
- **Archive title** (`swanwick_archive_title`). The filter returns a non-empty
  original title as it is. Otherwise it removes every `Category: ` from the title.
- **Has-thumbnail heuristic** (`swanwick_find_featured_image`). A post without a
  featured image counts as having one when its content contains `<img`.
- **Featured-image linkifier** (`swanwick_linkify_featured_image`). On singular
  views, the filter wraps the image in a `<figure><a>` link to its full-size
  source. The link title is the caption, or "Full size" when the caption is empty.

Modules:

- `PhpStrings` models the PHP built-ins involved: `strpos`, `stripos`,
  `str_replace`, `empty()` on a string (both `""` and `"0"` are empty), and the
  truthiness of `int|false`.
- `BlockMarker` is a hand-written leftmost matcher for the one regular
  expression. It is proved sound and complete against a declarative description
  of a match (`Matches`). It is also proved unique at each start, so the
  captured id is the one PCRE would return.
- `ThemeFilters` holds the four pure filters.
- `FakeThumbnail` holds the resolver.

Host context becomes parameters:

- `is_single()`, `is_singular()` and `has_category('Photos')` are booleans.
- `get_post` becomes `Option<content>`.
- `get_the_content`, the attachment mime types and `wp_get_attachment_image`
  are fields of `FakeThumbnail.Host`.
- The full-size source after `esc_url` is `Option<string>`.
- The caption is a string.
- `__()` and `esc_html__()` are the identity.

Where the code and its descriptions differ, the model follows the code:

- The doc comment at functions.php:184 speaks of "order", "get" and
  "interested". The code tests `buy` and `interested in`.
- The doc comment at functions.php:184-185 says the paragraph is skipped when
  the keywords are in the content. The code at functions.php:194-198 uses each
  `stripos` result as a boolean, so a keyword whose first occurrence opens the
  content counts as absent (`ThemeFilters.PrintsForSaleExample`).
- The mime check at functions.php:276 accepts `image` anywhere in the mime
  type, not only as a prefix.
- When the scan finds nothing usable, the code still calls
  `wp_get_attachment_image` with the empty cached value. It does not return
  empty markup itself.
- If the captured id is `"0"` and the attachment looked up for it is an image,
  `"0"` is written to the meta, but `empty("0")` hides it. Such a post is
  scanned and written again on every call
  (`FakeThumbnail.ResolveSecondCallHits`). The output is still the same each
  time (`FakeThumbnail.ResolveTwice`). Which attachment `get_post("0")` finds
  is up to the host (see "## Left out").

## Model

| member | source | states |
|---|---|---|
| `PhpStrings.StrPos` | functions.php:244 | strpos: the result is the leftmost occurrence of the needle; false exactly when the needle does not occur |
| `PhpStrings.StrPosFrom` | functions.php:244 | the search from an offset returns the first occurrence at or after it, or false when there is none from there on |
| `PhpStrings.StrIPos` | functions.php:194-198 | stripos: the leftmost occurrence after ASCII case folding of both sides, or false when there is none |
| `PhpStrings.TruthyStrPos` | functions.php:194-198 | a strpos result used as a boolean is true exactly when the needle occurs and does not occur at offset 0 |
| `PhpStrings.StrReplace` | functions.php:222 | str_replace with one search string: an empty search string, or a replacement equal to the search string, leaves the subject unchanged; a replacement of the same length keeps the length |
| `PhpStrings.StrReplaceAbsent` | functions.php:222 | str_replace leaves a subject without an occurrence of the search string unchanged |
| `PhpStrings.StrRemoveShrinks` | functions.php:222 | removing a non-empty search string never lengthens the subject, and strictly shortens it when the search string occurs |
| `PhpStrings.StrRemoveChangesIff` | functions.php:222 | removing a non-empty search string changes the subject if and only if the search string occurs in it |
| `PhpStrings.StrReplaceLeading` | functions.php:222 | an occurrence at the front is replaced, and the scan continues right after it |
| `BlockMarker.DigitRunEnd` | functions.php:270 | `\d+` is greedy: the returned end closes a run of digits that the next character (if any) does not continue |
| `BlockMarker.MatchAtSound` | functions.php:270 | whatever the anchored matcher returns is a match of the pattern at that offset |
| `BlockMarker.MatchAtComplete` | functions.php:270 | every match of the pattern at an offset is exactly what the anchored matcher returns there |
| `BlockMarker.MatchUnique` | functions.php:270-273 | two matches that start at the same offset are equal, so the captured id (group 2) is determined by the start |
| `BlockMarker.FirstMatchFrom` | functions.php:270-271 | the first match at or after an offset: it is a match, and no match from that offset starts earlier |
| `BlockMarker.LeftmostMatch` | functions.php:270-272 | preg_match: a match whose start is minimal among all matches, or none exactly when the content has no match |
| `ThemeFilters.AlreadyThere` | functions.php:192-199 | `$already_there` implies that "print" occurs, and "buy" or "interested in" occurs, ignoring case, and that the content does not start with "print" |
| `ThemeFilters.PrintCallToAction` | functions.php:190-206 | the content is returned unchanged off single Photos posts; otherwise the fragment is appended once, exactly when `$already_there` is false |
| `ThemeFilters.KeywordTruthy` | functions.php:194-198 | a stripos keyword test holds if and only if the keyword occurs case-insensitively and not at offset 0 |
| `ThemeFilters.AlreadyThereMeaning` | functions.php:192-199 | `$already_there` holds iff "print" and either "buy" or "interested in" each occur, ignoring case, with none of them at offset 0 |
| `ThemeFilters.PrintCallToActionStable` | functions.php:190-206 | filtering the filtered content again adds nothing, when the content does not start with "print" or "interested in" |
| `ThemeFilters.PrintLeadAlwaysAppends` | functions.php:192-202 | content that starts with "print" always gets the fragment, gets it again on a second pass, and still starts with "print" afterwards, so every further pass appends again |
| `ThemeFilters.PrintsForSaleExample` | functions.php:192-202 | "Prints for sale: buy one" contains both keywords and still gets the fragment appended |
| `ThemeFilters.PrintCallToActionIntended` | functions.php:184-185 | the corrected filter appends the fragment exactly when "print" is missing, or both "buy" and "interested in" are missing, at any offset |
| `ThemeFilters.PrintCallToActionIntendedIdempotent` | functions.php:184-185 | the corrected filter is idempotent for every content |
| `ThemeFilters.PrintCallToActionAgreesAwayFromStart` | functions.php:192-202 | the written and corrected filters agree when no keyword starts the content |
| `ThemeFilters.ArchiveTitle` | functions.php:218-224 | a non-empty original title is returned verbatim; otherwise the result is no longer than the title, and equals it iff the title has no "Category: " |
| `ThemeFilters.ArchiveTitleDropsLabel` | functions.php:222 | "Category: " followed by a name with no further label becomes the name |
| `ThemeFilters.ArchiveTitlePhotos` | functions.php:222 | "Category: Photos" becomes "Photos" |
| `ThemeFilters.FindFeaturedImage` | functions.php:240-251 | a true input stays true; for a false input the result is whether the resolved post's content contains `<img`, and false when the post does not resolve |
| `ThemeFilters.ImgAtStartCounts` | functions.php:244-246 | an `<img` at offset 0 counts, because the test is `!== false` |
| `ThemeFilters.LinkTitle` | functions.php:64-67 | the link title is the caption, or "Full size" when the caption is empty; it is never empty |
| `ThemeFilters.LinkifyFeaturedImage` | functions.php:58-73 | the HTML is unchanged iff the view is not singular or the full-size URL is missing or empty; otherwise it is wrapped as `<figure><a href=URL title=TITLE>` + html + `</a></figure>` |
| `FakeThumbnail.IsImageMime` | functions.php:276 | the mime check holds iff "image" occurs anywhere in the mime type |
| `FakeThumbnail.Discovered` | functions.php:269-277 | a found id is the digits of the leftmost block marker, and its attachment is an image; when nothing is found, the leftmost marker's attachment is not an image or there is no marker |
| `FakeThumbnail.Resolve` | functions.php:260-289 | one call on values: on a single view or with non-empty markup, markup and meta pass through; a cache hit renders the cached id and writes nothing; any change to the meta is the write of the discovered id to this post's entry, and that id is what is rendered |
| `FakeThumbnail.ResolvePassThrough` | functions.php:261-264 | on a single view, or with non-empty incoming HTML, the HTML is returned and the meta is untouched |
| `FakeThumbnail.ResolveCacheHit` | functions.php:266-267 | on a cache hit, the cached id is rendered, nothing is written, and the result does not depend on the content or the mime table |
| `FakeThumbnail.ResolveWrite` | functions.php:266-285 | the only write is the fake-thumbnail entry, and it happens exactly on a miss whose scan discovers an id with an image attachment: every such miss writes that id and renders it. A miss that finds nothing renders the cached value and leaves the meta as it was |
| `FakeThumbnail.ResolveTouchesOneEntry` | functions.php:279 | every other meta entry, of this post or any other, is unchanged |
| `FakeThumbnail.ResolveTwice` | functions.php:260-289 | a second call on the meta the first call left returns the same HTML and leaves the meta the same |
| `FakeThumbnail.ResolveSecondCallHits` | functions.php:264-267 | after a write, the next call is a cache hit iff the written id is not "0" |
| `FakeThumbnail.ImageBlockCaptures` | functions.php:270-273 | in `<!-- wp:image {"id":N,` the leftmost match captures N |
| `FakeThumbnail.ResolveImageExample` | functions.php:266-285 | an image block with id 42 whose attachment is `image/jpeg`: 42 is cached and rendered |
| `FakeThumbnail.ResolveNotImageExample` | functions.php:266-285 | an image block with id 7 whose attachment is `text/plain`: nothing is cached, and the empty cached value is rendered |
| `FakeThumbnail.PostMetaStore.FakeFeaturedImage` | functions.php:260-289 | the returned HTML and the new meta map are what Resolve gives for the old meta |

## Left out

- Theme setup, content width, sidebar and script registration, and the `require` lines (functions.php:10-179): host registration with no behaviour to state.
- Hook dispatch, including the relative order of the two `post_thumbnail_html` filters: each filter is modelled on its own.
- `template-parts/content-category-photos.php` is not part of this model: it is markup that echoes host template tags.
- Host lookups are parameters or `Host` fields, as listed above. Their own behaviour is not modelled. This includes `get_the_content`'s teaser handling and the integer conversion `get_post` applies to a captured id: the mime table is keyed by the captured digits, so `"042"` and `"42"` are different keys here. It also includes `get_post`'s fallback to the current post when its argument is empty, as `"0"` is: the mime table's entry for `"0"` stands for whatever that lookup yields.
- Strings are sequences of characters that stand for bytes. `stripos` folds ASCII letters only, as PHP 8.2 and later do; older PHP folds according to the locale.
- `PHP_EOL` is taken to be `"\n"`.
- The unused parameters `$thumbnail_id` (fallback filter), `$post_id`, `$size` and `$attr` (linkifier) and `$prefix` (archive title) are dropped.
- ThemeFilters.FindFeaturedImage: the incoming `$has_thumbnail` is modelled as the boolean the hook documents; other truthy or falsy values a previous filter might pass are not modelled.
- PostMetaStore.FakeFeaturedImage: concurrent calls racing on the meta write are not modelled, because each call runs within one request.

## Findings

| source | as written | input that shows it | evidently intended | confidence | as-written member | corrected member |
|---|---|---|---|---|---|---|
| functions.php:194-198 | each `stripos` result is used as a boolean, so a keyword whose first occurrence is at offset 0 counts as absent | content `Prints for sale: buy one` on a single Photos post gets the call to action appended, and gets a second copy on a second pass | a keyword counts wherever it occurs (`false !== stripos(...)`), as the doc comment at functions.php:184-185 describes | medium, not executed | `ThemeFilters.PrintsForSaleExample` | `ThemeFilters.PrintCallToActionIntended` |

`ThemeFilters.PrintLeadAlwaysAppends` proves the general case: any content
that starts with "print", ignoring case, gets the fragment on every pass. The
corrected filter is idempotent for all content
(`ThemeFilters.PrintCallToActionIntendedIdempotent`). It agrees with the
written filter whenever no keyword starts the content
(`ThemeFilters.PrintCallToActionAgreesAwayFromStart`). The table above models
the code as written (`ThemeFilters.PrintCallToAction`).
