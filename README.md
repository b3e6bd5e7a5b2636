# Erga recipe manager: a verified model of its core logic

Erga is a Streamlit application for a Hebrew-speaking cook. It extracts a
recipe from a web page or a photo with a language model, shows it for
preview, saves it to MongoDB and lists the saved recipes with filters. All
of it lives in `streamlit_app.py`. Most of that file is interface and I/O
glue. This project models the deterministic logic inside the glue, in
Dafny, and proves what that logic guarantees:

- **JSON repair** (`JsonRepair`): `parse_gemini_json_output` is modelled.
  - It picks the payload: the first fenced `json` block, else the first-`{`-to-last-`}` span, else the whole reply.
  - It strips the payload.
  - It cuts `//` to the end of each line.
  - It drops trailing commas in one left-to-right pass.
  - It then tries the decoder twice, the second time with newlines, carriage returns and tabs removed.
  - The regular expressions are written out by hand with Python's semantics. That means a lazy body, `IGNORECASE`, which also folds U+017F to `s`, and Python's whitespace set.
- **Save coercion** (`Recipes`): `save_recipe_to_db` stamps `added_on` and forces three fields to be lists. It does this in place on the dictionary it shares with the session.
- **Card metadata** (`CardLayout`): the present metadata fields become lines in a fixed order. The lines are cut into three columns of `ceil(n/3)`.
- **Browse filters** (`Browse`): from the loaded records the tab builds sorted, distinct option lists for cuisine and meal type, then filters the records by the chosen options.
- **Image cache** (`ImageCache`): `cache_image` and `get_cached_image` over the session map, keyed by a digest of the URL.
- **Image discovery** (`ImageDiscovery`):
  - `is_valid_image_url` (its scheme gate and HEAD check) and `follow_redirects`.
  - The live, regex-based `fetch_meta_image`.
  - The fallback chain of `get_recipe_image`, which writes the picture into the recipe.
- **Session state** (`Session`):
  - The preview and "saved" flags.
  - The per-card two-step delete confirmation.
  - The cached recipe lists of the browse tab.
- **Translations** (`Translations`): the Hebrew table and `get_translation`'s fallback to the key. The table is given as Hebrew text, decoded from the mis-encoded bytes of the source file.
- **Shared values** (`Values`, `Text`): Python values and truthiness, `str.strip()`, `startswith`, and the code-point order `sorted()` uses.

The network, MongoDB, the language model, PIL, base64, md5, the clock,
`json.loads`, `str.format` and `str()` of a value all become parameters:
- `Web` says what every request returns;
- `insert` is `insert_one`;
- `loads` is the JSON decoder;
- `keyOf` is the injective digest;
- `now` is the clock.

Where the program's evident intent and its code disagree, the model follows the code. After a delete, a save and a refresh, the code's own comments announce a cache clear ("Clear potentially cached recipe data if needed" at `streamlit_app.py:975`, "Clear cache if implemented" at 1423, "Clear cache if implemented before rerun" at 1445). Each is followed by `del st.session_state['recipes_cache']`. The lists, however, are cached under `recipes_<sort>` (1468-1472), so nothing is dropped. The session methods (`PressSave`, `Refresh`, `DeleteControl`) model what the code does: the cached lists stay in place. The first finding records this, together with a corrected invalidation.

## Model

| member | source | states |
|---|---|---|
| Text.Strip | streamlit_app.py:594 | `str.strip()`: the result has no white space at either end and is the input with some white space removed before and after it |
| Text.StripPadded | streamlit_app.py:1494 | white space after a trimmed non-empty string is exactly what `strip()` removes |
| Text.LexTransitive | streamlit_app.py:1504 | Python's string order is transitive |
| Text.LexTotal | streamlit_app.py:1504 | any two different strings are ordered one way or the other |
| JsonRepair.FindFence | streamlit_app.py:581 | the ```` ```json ```` search finds the leftmost opener that has a match and, for it, the shortest body; none is found only when the text has no match at all |
| JsonRepair.NoCloserNoMatch | streamlit_app.py:581 | when the first opener has no closer after it, no later opener matches either |
| JsonRepair.FenceBodyTrimmed | streamlit_app.py:581 | the lazily captured body has no white space at either end |
| JsonRepair.FindBraces | streamlit_app.py:586 | the `{[\s\S]*}` span runs from the first `{` to the last `}`; there is none exactly when no `{` has a `}` after it |
| JsonRepair.FencedBlockIsPayload | streamlit_app.py:580-593 | when a fenced block matches, the stripped payload is the first block's body |
| JsonRepair.BracedSpanIsPayload | streamlit_app.py:584-593 | with no fenced block, the payload is the stripped span from the first `{` to the last `}` |
| JsonRepair.WholeTextIsPayload | streamlit_app.py:589-593 | with neither, the payload is the whole reply, stripped |
| JsonRepair.FencedReplyPayload | streamlit_app.py:578-593 | a reply laid out as opener, white space, body, white space, closer yields exactly the body |
| JsonRepair.StripCommentsByLine | streamlit_app.py:596 | the comment pass keeps the number of lines, and each line becomes its prefix before the first `//` |
| JsonRepair.NoCommentLineUnchanged | streamlit_app.py:596 | a line without `//` is unchanged |
| JsonRepair.CommentCutsRestOfLine | streamlit_app.py:596 | text after `//` on a line is removed |
| JsonRepair.CommentPassCutsUrls | streamlit_app.py:596 | the comment pass also cuts a `https://` link inside a JSON string |
| JsonRepair.TrailingCommasSubsequence | streamlit_app.py:597 | the trailing-comma pass only deletes characters and keeps the order of the rest |
| JsonRepair.TrailingCommasKeepOthers | streamlit_app.py:597 | every character that is not a comma or white space, closers included, occurs as often after the pass as before |
| JsonRepair.TrailingCommasKeepExactly | streamlit_app.py:597 | the pass deletes exactly the removed runs (a comma and the white space after it, where a `]` or `}` follows); every other character, commas and white space included, is kept, in order |
| JsonRepair.TrailingCommaKeepsSeparators | streamlit_app.py:597 | `x, y,]` becomes `x, y]`: a separating comma and its white space stay |
| JsonRepair.NoTrailingCommaUnchanged | streamlit_app.py:597 | text with no comma followed by optional white space and a `]` or `}` passes through unchanged |
| JsonRepair.TrailingCommaSinglePass | streamlit_app.py:597 | the pass does not overlap its matches: `,,]` becomes `,]`, while `,]` becomes `]` |
| JsonRepair.TrailingCommasCommaFreePrefix | streamlit_app.py:597 | a prefix without commas is copied unchanged |
| JsonRepair.RemoveLineControls | streamlit_app.py:606 | the second attempt's text has no newline, carriage return or tab, keeps the order of the rest, and keeps every other character's count |
| JsonRepair.ParseGeminiJsonOutput | streamlit_app.py:599-610 | success exactly when one of the two attempts decodes; the first attempt wins; otherwise the error is raised |
| JsonRepair.DecodeModelResponse | streamlit_app.py:749-757 | the raw reply is decoded first; only when that fails is the repair applied, and its failure is no recipe |
| JsonRepair.RepairFencedTrailingComma | streamlit_app.py:578-597 | a fenced reply with a trailing comma in a list is repaired to the JSON without it |
| Translations.Lookup | streamlit_app.py:155 | a key in the table maps to its Hebrew text, any other key to itself |
| Translations.Translate | streamlit_app.py:153-161 | without arguments the looked-up text; with arguments the formatted text, or the unformatted text when formatting raises `KeyError` |
| Translations.MissingKeyShownAsItself | streamlit_app.py:155-160 | a key without an entry is shown as itself without arguments, and with arguments whenever formatting raises `KeyError` |
| Translations.UsedKeysTranslated | streamlit_app.py:90-151 | the keys the modelled screens use are all in the table |
| ImageDiscovery.IsValidImageUrl | streamlit_app.py:178-204 | true exactly for a string that, stripped, starts with `http://` or `https://` and whose HEAD answer is 200 with an `image/` content type |
| ImageDiscovery.SchemeGate | streamlit_app.py:183-191 | a value without an http(s) scheme is refused, whatever the network would answer |
| ImageDiscovery.FollowRedirects | streamlit_app.py:207-222 | the empty URL is returned unchanged, a failed request returns the URL, otherwise the final URL |
| ImageDiscovery.FirstMatch | streamlit_app.py:624-643 | the first tag in order whose pattern matches, with its capture; none when no tag matches |
| ImageDiscovery.FetchMetaImagePriority | streamlit_app.py:613-645 | og:image before twitter:image before link image_src, each joined to the page URL; none when the page cannot be fetched or no tag matches |
| ImageDiscovery.FetchMetaImageUnvalidated | streamlit_app.py:613-645 | the live `fetch_meta_image` does no URL check: its answer does not depend on HEAD requests |
| ImageDiscovery.Candidate | streamlit_app.py:384-425 | a picture found is a string, and it either passed the URL check or came from the meta tags |
| ImageDiscovery.OwnImageKept | streamlit_app.py:384-386 | a recorded picture that checks out is kept (after redirects) and no strategy is used |
| ImageDiscovery.MetaImageFirst | streamlit_app.py:386-388 | otherwise a non-empty meta-tag picture of the page wins |
| ImageDiscovery.SameSourceNotRefetched | streamlit_app.py:390-393 | a `source_url` equal to the page URL is never fetched a second time |
| ImageDiscovery.SourceImageSecond | streamlit_app.py:388-393 | when the page's meta tags give nothing and a different source page is tried, the source page's meta-tag link wins over noembed and the favicon |
| ImageDiscovery.NoembedBeforeFavicon | streamlit_app.py:395-425 | when strategies 1 and 2 find nothing, a noembed thumbnail that passes the URL check wins over the favicon |
| ImageDiscovery.FaviconLast | streamlit_app.py:413-425 | when strategies 1 to 3 find nothing and `scheme://netloc/favicon.ico` passes the URL check, the answer is that favicon after redirects |
| ImageDiscovery.LateStrategiesValidated | streamlit_app.py:395-425 | when strategies 1 and 2 find nothing (including the extraction path, where the source URL is the page URL), any picture found by noembed or the favicon passed the URL check |
| ImageDiscovery.GetRecipeImage | streamlit_app.py:380-431 | returns the picture of the fallback chain and writes it, and only it, into the shared recipe; leaves the recipe as it was when none is found |
| ImageCache.FreshEntryKept | streamlit_app.py:446-457 | for an empty URL or a fresh entry, `cache_image` leaves the cache unchanged |
| ImageCache.CacheImageOutcome | streamlit_app.py:441-482 | any call leaves the cache unchanged or stores the accepted response stamped `now`; it changes only for a non-empty URL with no fresh entry and an accepted response |
| ImageCache.StoredEntryFresh | streamlit_app.py:467-476 | a stored entry is fresh at the moment it is stored, for any positive age limit and a non-zero clock reading (a zero stamp is falsy, so the entry at 455 is not fresh) |
| ImageCache.CachedContent | streamlit_app.py:485-495 | `get_cached_image` gives the content exactly when the URL is non-empty and its key is present, regardless of age |
| ImageCache.CacheImageIsolated | streamlit_app.py:436-438 | with an injective key function, caching one URL never changes what another URL reads |
| ImageCache.CacheThenRead | streamlit_app.py:467-495 | after an accepted download, reading the URL gives the downloaded bytes |
| ImageCache.ImageStore.CacheImage | streamlit_app.py:441-482 | the session map after the call is `AfterCacheImage` of the map before it; under the injective digest, every other URL reads what it read before |
| ImageCache.ImageStore.GetCachedImage | streamlit_app.py:485-495 | the result is `CachedContent` of the session map |
| Recipes.EnsureList | streamlit_app.py:791-796 | one coercion: the field holds a list afterwards; a list is kept, anything else becomes `[]`; no other field changes |
| Recipes.SaveCoercedSpec | streamlit_app.py:788-796 | after a save the three fields hold lists, lists are kept, `added_on` is the save time, and every other field is as before |
| Recipes.CoercionSteps | streamlit_app.py:788-796 | the time stamp followed by the three coercions, in source order, gives that document |
| Recipes.SaveCoercedIdempotent | streamlit_app.py:788-796 | saving a document twice, as a retry after a failed insert does, gives the same document as saving it once at the later time |
| Recipes.RecipeDoc.StampForSave | streamlit_app.py:788-796 | the shared document is replaced in place by its coercion |
| Recipes.SaveRecipeToDb | streamlit_app.py:784-808 | the document is coerced in place and handed to the insert, and the insert's id is returned |
| CardLayout.PresentFieldsSpec | streamlit_app.py:885-897 | exactly the fields with a truthy value are listed, in the card's order |
| CardLayout.MetadataLinesPresent | streamlit_app.py:885-897 | the lines are those of the present fields, in order |
| CardLayout.AppendIfPresent | streamlit_app.py:886-887 | one test appends the field's line exactly when its value is truthy |
| CardLayout.MetadataItems | streamlit_app.py:885-897 | the six tests build the card's line list |
| CardLayout.ItemsPerColumn | streamlit_app.py:900 | `items_per_col` is the ceiling of n/3, and 0 for no items |
| CardLayout.ColumnsSpec | streamlit_app.py:900-904 | the column slices are consecutive index ranges, hold at most `items_per_col` items each, together give the item list in order, and are all empty for no items |
| CardLayout.DistributeColumns | streamlit_app.py:901-904 | the loop over the three columns yields those slices |
| Browse.OptionOf | streamlit_app.py:1490-1495 | a record offers its value stripped when the value is a string that is not blank, and nothing otherwise |
| Browse.OfferedExactly | streamlit_app.py:1487-1501 | an option is collected exactly when some record offers it |
| Browse.SortedOf | streamlit_app.py:1504-1505 | `sorted(list(s))` is strictly increasing in Python's order and holds exactly the set's strings |
| Browse.StrictlySortedDistinct | streamlit_app.py:1504-1505 | the option lists repeat no option |
| Browse.CollectFilterOptions | streamlit_app.py:1487-1505 | the loop and the sort give, for each field, exactly the offered options, each once, in increasing order |
| Browse.KeepRawSpec | streamlit_app.py:1521-1524 | the filter as written keeps, in order and with multiplicity, the records whose raw value equals the option |
| Browse.FilterAllIsIdentity | streamlit_app.py:1521-1524 | choosing "all" returns the records unchanged |
| Browse.PaddedOptionSelectsNothing | streamlit_app.py:1487-1524 | a record whose value has trailing white space offers an option that the filter as written does not match |
| Browse.OfferedOptionSelectsNothing | streamlit_app.py:1487-1524 | `{"cuisine": "Italian "}` offers "Italian", and choosing it shows no recipe |
| Browse.KeepMatchingSpec | streamlit_app.py:1521-1524 | the corrected filter keeps, in order and with multiplicity, the records that offer the chosen option |
| Browse.OfferedOptionSelects | streamlit_app.py:1487-1524 | with the corrected filter, every offered option selects at least one record |
| Browse.ApplyFiltersAsWrittenSpec | streamlit_app.py:1519-1524 | as written, a record survives both filters exactly when its raw value equals each option that is not "all"; the survivors keep their order |
| Browse.ApplyFiltersSpec | streamlit_app.py:1519-1524 | with the corrected filters, a record survives both exactly when it offers each option that is not "all"; the survivors keep their order |
| Session.LoadList | streamlit_app.py:1468-1472 | a cached list is shown again; otherwise the fetched list is cached and shown |
| Session.LoadListSticks | streamlit_app.py:1468-1472 | once cached, a list is shown whatever the database would now return |
| Session.InvalidateAsWritten | streamlit_app.py:1424-1425 | the handlers remove only `recipes_cache` |
| Session.InvalidateAsWrittenKeepsLists | streamlit_app.py:1424-1425 | since lists are cached only under `recipes_<sort>`, that removal changes nothing |
| Session.StaleListAfterSave | streamlit_app.py:1424-1425 | after a save the list cached before it is shown again, without the new recipe |
| Session.Invalidate | streamlit_app.py:1424-1425 | the corrected invalidation drops exactly the three cached lists |
| Session.InvalidateRefetches | streamlit_app.py:1424-1425 | after it, every sort order is loaded fresh from the database |
| Session.DeleteStep | streamlit_app.py:964-990 | a delete is attempted exactly on a confirm press while confirming; the flag is set exactly by a delete press from the unset state, or kept while confirming without confirm or cancel |
| Session.FlagMeansPending | streamlit_app.py:964-990 | starting unset, the flag is set exactly when a delete press is not yet answered by confirm or cancel |
| Session.DeletionNeedsTwoPresses | streamlit_app.py:964-990 | a deletion is attempted only on a confirm press that follows an earlier delete press |
| Session.WithUpload | streamlit_app.py:996-1013 | a recipe without an image link gets the uploaded picture; otherwise it is unchanged |
| Session.SessionState.constructor | streamlit_app.py:1331-1334 | the session starts with no preview and the saved flag unset |
| Session.SessionState.SavedNoticeShown | streamlit_app.py:1409-1432 | the "saved" notice inside the preview branch can never be shown |
| Session.SessionState.SubmitUrl | streamlit_app.py:1364-1383 | an empty URL changes nothing; a non-empty extraction becomes the preview (with a manual upload when it has no picture) and unsets the saved flag; a failed one clears the preview |
| Session.SessionState.SubmitImage | streamlit_app.py:1394-1403 | the same for a picture, without the manual upload |
| Session.SessionState.PressSave | streamlit_app.py:1417-1429 | the preview document is coerced in place even when the insert fails; success clears the preview and sets the saved flag; removing `recipes_cache` leaves the cached lists as they were; failure changes nothing else |
| Session.SessionState.Refresh | streamlit_app.py:1444-1448 | the refresh button removes `recipes_cache`, which leaves the cached lists as they were |
| Session.SessionState.LoadRecipes | streamlit_app.py:1468-1472 | the tab's list and new cache are `LoadList` of the cache |
| Session.SessionState.DeleteControl | streamlit_app.py:959-990 | without a delete button nothing changes; otherwise the card's flag and the attempt follow `DeleteStep`, whatever the delete returns; a successful delete removes `recipes_cache`, and the cached lists stay as they were |

## Left out

- The Streamlit interface: rendering, CSS, widgets, spinners, messages and `st.rerun`. A button press becomes a method call, and a rerun becomes the next call.
- MongoDB:
  - Insertion, search, deletion and index creation are outside the model.
  - So is the sorting that `get_all_recipes` delegates to `find().sort`.
  - The list it returns is a parameter (`fetched`).
  - `search_recipes` and the search tab are not part of this model.
- `insert_one` adds `_id` to the document in place. The model does not show that write.
- The language-model calls and prompts of `extract_recipe_from_url` and `extract_recipe_from_image`. Their results are parameters (`extracted`). Only the decoding of their replies is modelled (`DecodeModelResponse`).
- Extraction also pre-caches the picture it found. The model does not connect that step to `ImageStore`. Both operations are modelled separately.
- The network:
  - HEAD and GET requests, redirects, noembed, `urljoin` and `urlparse` are the `Web` parameter.
  - Time-outs, headers and `max_redirects` (never used by the code) are not modelled.
- The three meta-tag regular expressions of `fetch_meta_image` (624-643) are the `Web.search` parameter. Which tags they match is not modelled; for example, a tag with `content=` before `property=` is missed.
- JSON numbers are integers (`Num`). A decoded float such as `"servings": 2.5` has no value in the model, and floating point is not modelled.
- `json.loads`, `str.format`, PIL decoding, base64, md5 and `str()` of a value are parameters, not implementations.
- ImageCache.ImageStore.CacheImage: the timestamp is a `real` standing for the float `time.time()`. Wall-clock reading and floating-point rounding are not modelled.
- JsonRepair.ParseGeminiJsonOutput: the error message leaves out the decoder's detail that the source appends after the colon, because that text comes from `json.loads`.
- The first `fetch_meta_image` (the BeautifulSoup version) is shadowed by the redefinition further down the file and never runs, so it is not modelled. This includes its largest-image selection.
- `display_recipe_image`, the placeholder images and the widget flow of `add_manual_image_upload` (the upload widget and the preview). Only its effect on the recipe, `WithUpload`, is modelled.
- The browse tab's sort selection box: the model takes the chosen sort key, one of `newest`, `oldest` and `title`.
- Only one rerun at a time is modelled. Streamlit runs a session's reruns one after another, so there is no concurrency to model.

## Findings

| source | as written | input that shows it | evidently intended | confidence | as-written member | corrected member |
|---|---|---|---|---|---|---|
| streamlit_app.py:1424-1425 | after a save, a delete (976-977) or a refresh (1446-1447), the handler removes `recipes_cache`; the lists are cached under `recipes_newest`, `recipes_oldest` and `recipes_title` (1468-1472), so nothing is removed | a session with `recipes_newest` cached as `[]`, then a successful save: the tab still shows `[]` | the cached lists are dropped, so the tab re-reads the database | high; not executed | Session.StaleListAfterSave | Session.InvalidateRefetches |
| streamlit_app.py:1521-1524 | the filter compares the raw `r.get("cuisine")` with the chosen option, but the options are the stripped values (1490-1495) | the single record `{"cuisine": "Italian "}`: "Italian" is offered, choosing it shows no recipe | choosing an offered option shows the records that offered it | medium; not executed | Browse.OfferedOptionSelectsNothing | Browse.OfferedOptionSelects |
