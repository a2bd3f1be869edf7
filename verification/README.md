# News reader core: comment ledger, article cache, hash router

A verified Dafny model of the sequential logic in a single-page news reader. The
reader asks a hosted AI model for news summaries, caches them in the browser's
`localStorage`, lets readers post comments, and routes between a gallery view and
an article view through `window.location.hash`. The model covers three parts:

- **Comment ledger** (`store/db.ts`, module `CommentStore`). All comments of all
  articles sit in one list under the key `news_comments_db`.
  - `getComments` filters that list by article and sorts it newest first. The sort is stable.
  - `addComment` reads the list, pushes the new comment and writes the whole list back.
- **Article cache and answer processing** (`services/gemini.ts`, module `NewsService`).
  The cache is a `{timestamp, data}` envelope under `news_cache_v1`. It is served
  while it is less than one hour old, unless the caller forces a refresh. Otherwise
  the service:
  - cleans the model's answer text (drops code fences, trims it);
  - parses it, falling back to the span from the first `[` to the last `]`;
  - fills in defaults for missing fields and assigns ids of the form `art-<ms>-<index>`;
  - overwrites the cache with the new batch.
- **Hash router** (`App.tsx`, module `Router`). A class with the two state fields
  `currentView` and `selectedArticleId`, plus the location hash. It has the hash
  parser `handleHashChange` and the hash writer `navigate`.

Supporting modules:
- `Types` holds the records of `types.ts` and an error type for JavaScript exceptions.
- `Strings` holds the JavaScript string operations the source relies on: decimal
  rendering, `split`, global `replace` with `''`, `trim`, and the regular expression `/\[.*\]/s`.
- `Storage` holds `localStorage` as a class over a `map` from key to parsed value.
  A write can be refused (the quota), and then nothing is stored.

The main proved properties:
- `getComments` returns exactly the article's comments. They come newest first, and
  comments created in the same millisecond stay in ledger order.
- A successful `addComment` appends to the ledger. It adds exactly the new comment
  to its article's listing and changes no other article's listing. A failed one
  leaves storage untouched.
- The cache is hit exactly when an entry exists, the refresh is not forced and the
  envelope is less than one hour old.
- The answer cleanup leaves no fence behind and is idempotent.
- The bracket fallback picks the first `[` through the last `]`. It fails with the
  source's own message exactly when no `[` stands before a `]`.
- Normalised articles have no empty text field. Their ids are pairwise distinct,
  contain no `/`, and decode back to their clock reading and position.
- The router never reaches the article view without an article id. Navigating to
  any id without `/` (every generated id is one) and handling the new hash selects
  exactly that id.

Three behaviours of the code are easy to misread, and the model follows the code:
- `addComment` does not treat an unreadable ledger as empty. The `JSON.parse` at
  store/db.ts:28 sits inside a `try` whose `catch` rethrows (store/db.ts:32-34).
  So `CommentStore.AddComment` fails with the parse error and writes nothing.
- `fetchNewsArticles` rethrows whatever it caught (services/gemini.ts:105-108),
  so the model keeps the error kinds apart: upstream rejection, `SyntaxError`,
  `TypeError`, quota, and the "Could not parse news data from AI response." error.
- The cache check's own `JSON.parse` (services/gemini.ts:14) stands outside that
  `try`. An unreadable cache entry therefore makes a non-forced fetch throw. It is
  not treated as a miss. A cached `null` throws a `TypeError` at `.timestamp`. Any
  other value without a numeric timestamp compares as NaN or as a coerced number;
  the model treats it as stale.

## Model

| member | source | states |
|---|---|---|
| `Storage.Lookup` | store/db.ts:7 | `getItem` yields a value exactly when the key is present, and then the stored one |
| `Storage.LocalStorage.GetItem` | store/db.ts:7 | (no ensures) `getItem(key)` on the current contents, which is `Lookup` of them |
| `Storage.LocalStorage.SetItem` | store/db.ts:30 | a write that fits stores the value under the key and changes no other key; a refused write changes nothing and reports failure |
| `CommentStore.OfArticle` | store/db.ts:10 | (no ensures) `filter(c => c.articleId === articleId)`: the ledger's comments of that article, in ledger order |
| `CommentStore.OfArticleExact` | store/db.ts:10 | the article filter keeps every comment of that article as often as the ledger holds it, and no comment of another article |
| `CommentStore.OfArticleAppend` | store/db.ts:10 | filtering a ledger with entries appended equals filtering the old ledger followed by filtering the new entries |
| `CommentStore.CreatedAtAppend` | store/db.ts:10 | the same-millisecond subsequence of a concatenation is the concatenation of the subsequences |
| `CommentStore.Insert` | store/db.ts:10 | (no ensures) places one comment in a newest-first list in front of the first comment that is not newer; its properties are the next three rows |
| `CommentStore.SortNewestFirst` | store/db.ts:10 | (no ensures) `sort((a, b) => b.createdAt - a.createdAt)` as an insertion sort from the back of the list; `SortNewestFirstCorrect` states what it computes |
| `CommentStore.InsertPermutes` | store/db.ts:10 | one insertion step of the sort adds exactly the inserted comment |
| `CommentStore.InsertKeepsOrder` | store/db.ts:10 | inserting into a newest-first list keeps it newest-first |
| `CommentStore.InsertStable` | store/db.ts:10 | an inserted comment lands before the already-sorted comments of its millisecond and after none of them, as a stable sort of the longer list requires |
| `CommentStore.SortNewestFirstCorrect` | store/db.ts:10 | the descending sort by `createdAt` is non-increasing, a permutation of its input, and stable: comments with equal timestamps keep their ledger order |
| `CommentStore.LedgerForRead` | store/db.ts:7-14 | (no ensures) the ledger as `getComments` sees it: the stored list, or `[]` when the key is absent or the stored value is not a list (the read's `catch` swallows the error) |
| `CommentStore.LedgerForAppend` | store/db.ts:26-28 | a missing ledger starts empty; a stored list is taken as is and agrees with what a read sees; any other stored value makes the add throw |
| `CommentStore.GetComments` | store/db.ts:5-15 | returns exactly the stored comments of the article, newest first, ties in ledger order; an absent or unreadable ledger gives `[]`; it reads a snapshot and writes nothing |
| `CommentStore.NewComment` | store/db.ts:17-24 | the new comment carries the given article id and text, the given user or "Anonymous" when omitted, `createdAt = now`, and the id `cmt-<now>-<suffix>` |
| `CommentStore.AddComment` | store/db.ts:17-36 | succeeds exactly when the ledger is readable and the write fits; then returns the new comment and stores the old ledger with it appended at the end; otherwise rethrows the error and leaves storage unchanged |
| `CommentStore.Appended` | store/db.ts:28-30 | (no ensures) the storage after a successful add: the ledger key rewritten to the old ledger followed by the new comment, every other key unchanged |
| `CommentStore.AddListsNewComment` | store/db.ts:28-30 | after a successful add, the article's listing holds exactly the old listing plus the new comment |
| `CommentStore.AddListsNewCommentLastAmongTies` | store/db.ts:28-30 | after an add, the new comment follows every earlier comment of the same article created in the same millisecond |
| `CommentStore.AddLeavesOtherArticles` | store/db.ts:28-30 | an add leaves every other article's listing unchanged |
| `CommentStore.FirstComment` | store/db.ts:28-30 | with no stored ledger, a successful add leaves a listing with just the new comment |
| `NewsService.IsFresh` | services/gemini.ts:15 | (no ensures) `now - timestamp < 3600000`, one hour in milliseconds |
| `NewsService.ReadCache` | services/gemini.ts:12-19 | the cache is served exactly when an entry exists, `forceRefresh` is false and `now - timestamp < 3600000`, and then with the cached data; a forced refresh always goes upstream; an unreadable or `null` entry throws |
| `NewsService.AnswerText` | services/gemini.ts:62 | (no ensures) `response.text || ''`: the answer text when present and non-empty, otherwise `""` |
| `NewsService.Cleanup` | services/gemini.ts:65 | the cleaned answer contains no three-backtick fence and has no surrounding whitespace |
| `NewsService.CleanAnswerUnchanged` | services/gemini.ts:65 | an answer with no backtick and no surrounding whitespace is passed to the parser unchanged, as the prompt's requested raw JSON is |
| `NewsService.CleanupIdempotent` | services/gemini.ts:65 | cleaning an already cleaned answer changes nothing |
| `NewsService.DecodeAnswer` | services/gemini.ts:67-80 | a direct parse that succeeds is used as is; only when it fails is the first-`[`-to-last-`]` span parsed; it fails with "Could not parse news data from AI response." exactly when the direct parse fails and no `[` precedes a `]` |
| `NewsService.OrDefault` | services/gemini.ts:85-90 | JavaScript's `or` keeps a present non-empty value and otherwise gives the fallback, so a non-empty fallback never yields `""` |
| `NewsService.ArticleId` | services/gemini.ts:84 | a generated id is non-empty and contains no `/` |
| `NewsService.ArticleIdRoundTrip` | services/gemini.ts:84 | splitting `art-<ms>-<index>` at `-` and reading the digits gives back the clock reading and the index |
| `NewsService.ArticleIdsDistinct` | services/gemini.ts:84 | ids at different positions differ, whatever clock readings they carry |
| `NewsService.NormalizeItem` | services/gemini.ts:84-92 | each text field is the parsed value when truthy and its fixed default otherwise; the id is `art-<now>-<index>` and the image URL is seeded with `index + now` |
| `NewsService.ImageUrl` | services/gemini.ts:92 | (no ensures) `https://picsum.photos/seed/<index + now>/800/600` with the sum in decimal |
| `NewsService.Normalize` | services/gemini.ts:83 | the map fails with a `TypeError` exactly when some item is `null`; otherwise it keeps length and order, the i-th article coming from the i-th item |
| `NewsService.NormalizedBatchWellFormed` | services/gemini.ts:83-93 | in a normalised batch, no article has an empty text field; ids contain no `/`, decode to `(now, position)`, and are pairwise distinct |
| `NewsService.ProcessAnswer` | services/gemini.ts:62-93 | the answer yields articles exactly when the cleaned text decodes to an array without `null` items, and then they are that array normalised |
| `NewsService.FetchNewsArticles` | services/gemini.ts:10-109 | asks upstream exactly on a cache miss; a hit returns the cached data; on a miss it returns the processed answer or the error, rethrown; only a success writes, and it overwrites the cache with `{now, data}` where data is exactly the returned list |
| `NewsService.CacheServesWrittenBatch` | services/gemini.ts:98-101 | after a successful fetch at `now`, a later non-forced read is served the same batch exactly while less than one hour has passed |
| `NewsService.CacheWriteKeepsComments` | services/gemini.ts:98-101 | writing the cache never changes any article's comment listing |
| `Strings.NatToString` | services/gemini.ts:84 | a rendered number is a non-empty string of decimal digits |
| `Strings.ParseNatToString` | services/gemini.ts:84 | reading a rendered number's digits back gives the number |
| `Strings.Split` | App.tsx:19 | `split` returns at least one piece, no piece holds the separator, and joining the pieces with it gives back the string |
| `Strings.SplitPrefix` | App.tsx:19 | a separator-free prefix joins the first piece of what follows it |
| `Strings.SplitJoin` | App.tsx:19 | splitting undoes joining when no piece holds the separator |
| `Strings.RemoveAll` | services/gemini.ts:65 | a global replace with `''` never lengthens the text |
| `Strings.RemoveAllAbsent` | services/gemini.ts:65 | removing a pattern that does not occur changes nothing |
| `Strings.ContainsPrefixOfPattern` | services/gemini.ts:65 | a text holding the marker of a fenced JSON block holds the bare three-backtick fence |
| `Strings.ContainsInSuffix` | services/gemini.ts:65 | a pattern found after dropping leading characters was in the whole text |
| `Strings.ContainsInPrefix` | services/gemini.ts:65 | a pattern found after dropping trailing characters was in the whole text |
| `Strings.RemoveFenceKeepsHead` | services/gemini.ts:65 | fence removal keeps a leading non-backtick character in front |
| `Strings.RemoveFenceLeavesNone` | services/gemini.ts:65 | after `replace(/```/g, '')` no fence remains |
| `Strings.TrimStart` | services/gemini.ts:65 | the result is the suffix after leading whitespace only, starting at a non-whitespace character |
| `Strings.TrimEnd` | services/gemini.ts:65 | the result is the prefix before trailing whitespace only, ending at a non-whitespace character |
| `Strings.Trim` | services/gemini.ts:65 | (no ensures) `trim()`: `TrimEnd` after `TrimStart`, dropping ECMAScript whitespace at both ends |
| `Strings.TrimLeavesTrimmed` | services/gemini.ts:65 | a text with no whitespace at either end is its own trim |
| `Strings.TrimmedIsFixed` | services/gemini.ts:65 | a trimmed text starts and ends with non-whitespace, and trimming it again changes nothing |
| `Strings.TrimKeepsAbsence` | services/gemini.ts:65 | trimming cannot create a pattern occurrence |
| `Strings.IndexOf` | services/gemini.ts:74 | finds the first occurrence of a character, or reports that there is none |
| `Strings.LastIndexOf` | services/gemini.ts:74 | finds the last occurrence of a character, or reports that there is none |
| `Strings.BracketSpan` | services/gemini.ts:74 | the match of `/\[.*\]/s` exists exactly when some `[` precedes some `]`; it runs from the first `[` through the last `]` |
| `Strings.StartsWith` | App.tsx:18 | (no ensures) `s.startsWith(prefix)`: the prefix is no longer than `s` and equals its first characters |
| `Router.SecondSegment` | App.tsx:19 | the second `/`-separated piece of a `#article/` hash exists and contains no `/` |
| `Router.NextRoute` | App.tsx:16-28 | handling a hash preserves the invariant that the article view always has a non-empty selected id |
| `Router.HashChangeOutcomes` | App.tsx:18-27 | an article hash with a non-empty second piece selects it and shows the article; one with an empty second piece changes nothing; any other hash shows the gallery and clears the selection |
| `Router.NextRouteIdempotent` | App.tsx:18-27 | handling the same hash twice changes nothing more |
| `Router.SecondSegmentOf` | App.tsx:19 | the hash `#article/<id>` followed by nothing or by `/...` yields exactly `<id>` when `<id>` has no `/` |
| `Router.NavigateHash` | App.tsx:37-43 | `navigate('article', id)` with a non-empty id assigns `article/<id>`; every other call assigns `""` |
| `Router.HashAfterAssign` | App.tsx:39-41 | assigning `""` reads back as `""`; assigning `article/<id>` reads back as `#article/<id>` |
| `Router.NavigateRoundTrip` | App.tsx:37-43 | navigating to an id without `/` and handling the new hash selects exactly that id and shows the article, from any state |
| `Router.NavigateElsewhere` | App.tsx:40-41 | every other navigation, the back action included, returns to the gallery with no selection |
| `Router.GeneratedIdsRoundTrip` | services/gemini.ts:84 | every id the news service generates survives the trip through the hash |
| `Router.Render` | App.tsx:47-55 | the detail is rendered exactly when the view is `'article'` and a non-empty id is selected, and for that id; the gallery exactly when the view is `'gallery'` |
| `Router.ConsistentRendersSomething` | App.tsx:47-55 | a state that keeps the invariant always renders the gallery or an article |
| `Router.RouteAfter` | App.tsx:30-32 | (no ensures) the state after mounting in the initial state and handling each hash of a sequence in order |
| `Router.AlwaysConsistent` | App.tsx:11-32 | from the initial `gallery`/`undefined` state, after any sequence of hash changes the article view has a selected id and something is rendered |
| `Router.App.constructor` | App.tsx:11-32 | mounting starts at the gallery with no selection, then handles the current hash once |
| `Router.App.HandleHashChange` | App.tsx:16-28 | updates the two fields as the hash parse says, keeps the invariant, and leaves state and hash in agreement |
| `Router.App.BrowserHashChange` | App.tsx:14-30 | a hash change the app did not make (back or forward button): the state becomes the hash parse of the new hash, keeps the invariant, and agrees with the hash |
| `Router.App.Navigate` | App.tsx:37-43 | assigns the hash and reports whether it changed (and so whether `hashchange` fires) |
| `Router.App.Follow` | App.tsx:30 | a navigation followed by the browser's `hashchange` keeps the invariant and leaves state and hash in agreement |
| `Router.OpenArticle` | App.tsx:48 | opening an article from the gallery selects and renders exactly that article |

## Left out

- The hosted AI request and its prompt (services/gemini.ts:21-60). They are a foreign library call over the network. The call's outcome is the parameter `response`: a rejection, or an answer whose text may be missing.
- `JSON.parse` and `JSON.stringify`. Parsing is the parameter `parse`, a partial function from text to the shapes the code distinguishes. A parsed array item is `null` or an object with six optional string fields. Stored values are kept as parsed structures, which takes a parse after a stringify to give back the original.
- JavaScript coercions that the types above cannot express are not modelled:
  - a truthy non-string field value (a number, an object);
  - a timestamp stored as a numeric string;
  - a cache object with a numeric timestamp but no `data` array;
  - ledger entries that are not comments;
  - a NaN `createdAt`.
- A stored empty string counts as an absent key. Every reader in the source tests it as falsy.
- `Date.now()` and `Math.random()` are parameters. Each call to `fetchNewsArticles` or `addComment` reads the clock several times. The model uses one reading, `now`, for all of them. `ArticleIdsDistinct` holds for any readings.
- The random comment id suffix (store/db.ts:19) is an opaque string. Comment ids are not claimed to be unique.
- Concurrency is not modelled; the model is strictly sequential. Overlapping fetches (the last to finish wins) and lost ledger updates between tabs are out.
- The browser's percent-encoding of the hash is not modelled. Generated ids (`art-`, digits, `-`) are unaffected by it.
- The difference between a URL with no fragment and one with an empty fragment is not modelled. `Router.App.Navigate` reports a change exactly when the read-back hash changes.
- `navigate`'s view argument arrives from the gallery as any string. It is modelled as the two-valued `View`.
- `NewsService.FetchNewsArticles` also stores an `imageUrl` seeded with `index + now` (services/gemini.ts:92). The model builds it, but these seeds are not claimed to be unique.
- Rendering and UI files are not modelled. These are components/Layout.tsx, components/ArticleCard.tsx, views/Gallery.tsx, views/ArticleDetail.tsx and components/CommentSection.tsx. They are JSX, timers and React state flags. CommentSection only adds call-site rules: blank text is rejected, the name defaults to "NewsReader", and the new comment is prepended to the shown list.
- `console` logging is not modelled, and neither is the `StoredData` type of types.ts, which nothing uses.
