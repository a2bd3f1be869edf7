/** The news service of services/gemini.ts: a one-hour cache of the last article
    list in localStorage, and, on a miss or a forced refresh, one call to the hosted
    AI model whose text answer is cleaned, parsed (with a bracket-span fallback),
    normalised into articles and written back to the cache.

    The AI call and `JSON.parse` are not modelled: the call's outcome is the
    parameter `response`, and the parser is the parameter `parse`, a partial
    function from text to the JSON shapes this code distinguishes. */
module NewsService {
  import opened Types
  import opened Strings
  import opened Storage
  import CommentStore

  const CacheKey := "news_cache_v1"
  const CacheDuration := 1000 * 60 * 60   // one hour, in milliseconds

  const ParseFailureMessage := "Could not parse news data from AI response."

  const DefaultTitle := "Untitled News"
  const DefaultSummary := "No summary available."
  const DefaultSource := "Unknown Source"
  const DefaultLink := "#"
  const DefaultPublishedAt := "Recently"
  const DefaultCategory := "General"

  // ---------------------------------------------------------------------------
  // The cache read

  /** `now - timestamp < CACHE_DURATION`: strict, so an envelope exactly one hour
      old is stale, and one stamped in the future is fresh. */
  predicate IsFresh(now: int, timestamp: int)
  {
    now - timestamp < CacheDuration
  }

  /** The outcome of the cache check at the top of `fetchNewsArticles`. */
  datatype CacheRead =
    | Hit(data: seq<Article>)  // return the cached articles, no upstream call
    | Miss                     // go on to the upstream call
    | Broken(error: Error)     // the cache check itself throws

  /** The cache check. It runs only without `forceRefresh` and only when an entry
      exists; its `JSON.parse` stands outside the function's try, so an unreadable
      entry throws out of the whole fetch, and so does `null.timestamp`. Any other
      value without a numeric timestamp compares as NaN, which is never fresh. */
  function ReadCache(entry: Option<Blob>, forceRefresh: bool, now: int): (r: CacheRead)
    ensures r.Hit? <==> !forceRefresh && entry.Some? && entry.value.CacheEnvelope?
                        && IsFresh(now, entry.value.timestamp)
    ensures r.Hit? ==> r.data == entry.value.data
    ensures forceRefresh ==> r == Miss
    ensures r.Broken? <==> !forceRefresh && entry.Some? && (entry.value.Unparsable? || entry.value.JsonNull?)
    ensures r.Broken? ==> r.error == (if entry.value.Unparsable? then SyntaxError else TypeError)
  {
    if entry.None? || forceRefresh then Miss
    else
      match entry.value
      case Unparsable => Broken(SyntaxError)
      case JsonNull => Broken(TypeError)
      case CacheEnvelope(timestamp, data) => if IsFresh(now, timestamp) then Hit(data) else Miss
      case _ => Miss
  }

  // ---------------------------------------------------------------------------
  // Cleaning the answer text

  const FencedJson := "```json"

  /** `rawText.replace(/```json/g, '').replace(/```/g, '').trim()` */
  function Cleanup(text: string): (r: string)
    ensures !Contains(r, Fence)
    ensures r == [] || (!IsJsWhitespace(r[0]) && !IsJsWhitespace(r[|r| - 1]))
  {
    var unfenced := RemoveAll(RemoveAll(text, FencedJson), Fence);
    RemoveFenceLeavesNone(RemoveAll(text, FencedJson));
    TrimKeepsAbsence(unfenced, Fence);
    TrimmedIsFixed(unfenced);
    Trim(unfenced)
  }

  /** An answer that is already bare text, with no backtick and no surrounding
      whitespace, reaches the parser unchanged. */
  lemma CleanAnswerUnchanged(text: string)
    requires '`' !in text
    requires text == [] || (!IsJsWhitespace(text[0]) && !IsJsWhitespace(text[|text| - 1]))
    ensures Cleanup(text) == text
  {
    ContainsHasHead(text, FencedJson);
    RemoveAllAbsent(text, FencedJson);
    ContainsHasHead(text, Fence);
    RemoveAllAbsent(text, Fence);
    TrimLeavesTrimmed(text);
  }

  /** Cleaning a cleaned text changes nothing. */
  lemma CleanupIdempotent(text: string)
    ensures Cleanup(Cleanup(text)) == Cleanup(text)
  {
    var t := Cleanup(text);
    assert FencedJson[..3] == Fence;
    if Contains(t, FencedJson) {
      ContainsPrefixOfPattern(t, FencedJson, 3);
    }
    RemoveAllAbsent(t, FencedJson);
    RemoveAllAbsent(t, Fence);
    TrimmedIsFixed(RemoveAll(RemoveAll(text, FencedJson), Fence));
  }

  // ---------------------------------------------------------------------------
  // Parsing with the bracket fallback

  /** One element of the parsed array: `null` (on which `art.title` throws) or an
      object whose six text fields may be missing. */
  datatype RawItem =
    | NullItem
    | RawArticle(title: Option<string>, summary: Option<string>, source: Option<string>,
                 originalLink: Option<string>, publishedAt: Option<string>, category: Option<string>)

  /** What `JSON.parse` yields, as far as `articles.map` cares. */
  datatype Parsed = ArrayOf(items: seq<RawItem>) | NotAnArray

  /** The direct parse and, only when it throws, the parse of the bracket span;
      with no `[` before a `]` the fetch fails with its own message. */
  function DecodeAnswer(cleaned: string, parse: string -> Option<Parsed>): (r: Result<Parsed>)
    ensures parse(cleaned).Some? ==> r == Ok(parse(cleaned).value)
    ensures r == Err(Thrown(ParseFailureMessage)) <==> parse(cleaned).None? && !HasBracketPair(cleaned)
    ensures parse(cleaned).None? && HasBracketPair(cleaned) ==>
      var span := BracketSpan(cleaned).value;
      r == if parse(span).Some? then Ok(parse(span).value) else Err(SyntaxError)
  {
    match parse(cleaned)
    case Some(v) => Ok(v)
    case None =>
      match BracketSpan(cleaned)
      case None => Err(Thrown(ParseFailureMessage))
      case Some(span) =>
        match parse(span)
        case Some(v) => Ok(v)
        case None => Err(SyntaxError)
  }

  // ---------------------------------------------------------------------------
  // Normalising the parsed items

  /** A value JavaScript's `||` keeps: present and not the empty string. */
  predicate Truthy(v: Option<string>)
  {
    v.Some? && v.value != ""
  }

  /** `v || fallback` */
  function OrDefault(v: Option<string>, fallback: string): (r: string)
    ensures Truthy(v) ==> r == v.value
    ensures !Truthy(v) ==> r == fallback
    ensures fallback != "" ==> r != ""
  {
    if Truthy(v) then v.value else fallback
  }

  /** `art-${Date.now()}-${index}` */
  function ArticleId(ms: nat, index: nat): (id: string)
    ensures '/' !in id && id != ""
  {
    "art-" + NatToString(ms) + "-" + NatToString(index)
  }

  /** Reads an article id back into its clock reading and index. */
  function ParseArticleId(id: string): Option<(nat, nat)>
  {
    var parts := Split(id, '-');
    if |parts| == 3 && parts[0] == "art" && IsDigits(parts[1]) && IsDigits(parts[2])
       && parts[1] != "" && parts[2] != ""
    then Some((ParseDecimal(parts[1]), ParseDecimal(parts[2])))
    else None
  }

  lemma ArticleIdRoundTrip(ms: nat, index: nat)
    ensures ParseArticleId(ArticleId(ms, index)) == Some((ms, index))
  {
    var a, b := NatToString(ms), NatToString(index);
    var parts := ["art", a, b];
    assert '-' !in a && '-' !in b;
    assert Join(parts, '-') == ArticleId(ms, index) by {
      assert parts[1..] == [a, b] && parts[1..][1..] == [b];
      assert Join([b], '-') == b;
      assert Join([a, b], '-') == a + "-" + b;
      assert "art" + "-" + (a + "-" + b) == "art-" + a + "-" + b;
    }
    SplitJoin(parts, '-');
    ParseNatToString(ms);
    ParseNatToString(index);
  }

  /** Two items at different positions of one batch never share an id, whatever
      each one's clock reading was. */
  lemma ArticleIdsDistinct(ms1: nat, i: nat, ms2: nat, j: nat)
    requires i != j
    ensures ArticleId(ms1, i) != ArticleId(ms2, j)
  {
    ArticleIdRoundTrip(ms1, i);
    ArticleIdRoundTrip(ms2, j);
  }

  /** `https://picsum.photos/seed/${index + Date.now()}/800/600` */
  function ImageUrl(index: nat, ms: nat): string
  {
    "https://picsum.photos/seed/" + NatToString(index + ms) + "/800/600"
  }

  /** The body of the `articles.map` callback for a non-null item. */
  function NormalizeItem(item: RawItem, index: nat, now: nat): (a: Article)
    requires item.RawArticle?
    ensures a.id == ArticleId(now, index)
    ensures Truthy(item.title) ==> a.title == item.title.value
    ensures !Truthy(item.title) ==> a.title == DefaultTitle
    ensures Truthy(item.summary) ==> a.summary == item.summary.value
    ensures !Truthy(item.summary) ==> a.summary == DefaultSummary
    ensures Truthy(item.source) ==> a.source == item.source.value
    ensures !Truthy(item.source) ==> a.source == DefaultSource
    ensures Truthy(item.originalLink) ==> a.originalLink == item.originalLink.value
    ensures !Truthy(item.originalLink) ==> a.originalLink == DefaultLink
    ensures Truthy(item.publishedAt) ==> a.publishedAt == item.publishedAt.value
    ensures !Truthy(item.publishedAt) ==> a.publishedAt == DefaultPublishedAt
    ensures Truthy(item.category) ==> a.category == item.category.value
    ensures !Truthy(item.category) ==> a.category == DefaultCategory
    ensures a.imageUrl == Some(ImageUrl(index, now)) && a.fullContent == None
  {
    Article(
      id := ArticleId(now, index),
      title := OrDefault(item.title, DefaultTitle),
      summary := OrDefault(item.summary, DefaultSummary),
      fullContent := None,
      source := OrDefault(item.source, DefaultSource),
      originalLink := OrDefault(item.originalLink, DefaultLink),
      publishedAt := OrDefault(item.publishedAt, DefaultPublishedAt),
      imageUrl := Some(ImageUrl(index, now)),
      category := OrDefault(item.category, DefaultCategory))
  }

  predicate NoNullItem(items: seq<RawItem>)
  {
    forall i :: 0 <= i < |items| ==> items[i].RawArticle?
  }

  /** `articles.map((art, index) => ...)`: throws on the first null item. */
  function Normalize(items: seq<RawItem>, now: nat): (r: Result<seq<Article>>)
    ensures r.Ok? <==> NoNullItem(items)
    ensures r.Err? ==> r.error == TypeError
    ensures r.Ok? ==> |r.value| == |items|
    ensures r.Ok? ==> forall i :: 0 <= i < |items| ==> r.value[i] == NormalizeItem(items[i], i, now)
  {
    if NoNullItem(items) then
      Ok(seq(|items|, i requires 0 <= i < |items| => NormalizeItem(items[i], i, now)))
    else
      Err(TypeError)
  }

  /** No text field of a normalised article is empty. */
  predicate Complete(a: Article)
  {
    a.title != "" && a.summary != "" && a.source != "" && a.originalLink != ""
    && a.publishedAt != "" && a.category != ""
  }

  /** A normalised batch: every article complete, ids free of `/` and pairwise
      distinct, each id carrying its item's position. */
  lemma NormalizedBatchWellFormed(items: seq<RawItem>, now: nat)
    requires NoNullItem(items)
    ensures var batch := Normalize(items, now).value;
      && (forall i :: 0 <= i < |batch| ==> Complete(batch[i]) && '/' !in batch[i].id)
      && (forall i :: 0 <= i < |batch| ==> ParseArticleId(batch[i].id) == Some((now, i)))
      && (forall i, j :: 0 <= i < j < |batch| ==> batch[i].id != batch[j].id)
  {
    var batch := Normalize(items, now).value;
    forall i | 0 <= i < |batch| ensures ParseArticleId(batch[i].id) == Some((now, i)) {
      ArticleIdRoundTrip(now, i);
    }
    forall i, j | 0 <= i < j < |batch| ensures batch[i].id != batch[j].id {
      ArticleIdsDistinct(now, i, now, j);
    }
  }

  // ---------------------------------------------------------------------------
  // The whole answer pipeline and the fetch

  /** What the hosted model call produced: a rejection, or an answer whose
      `text` may be missing. */
  datatype AiResponse = CallRejected | Answered(text: Option<string>)

  /** `response.text || ''` */
  function AnswerText(response: AiResponse): string
    requires response.Answered?
  {
    if response.text.Some? then response.text.value else ""
  }

  /** From the answer text to the article list, or the error the try block rethrows. */
  function ProcessAnswer(text: string, now: nat, parse: string -> Option<Parsed>): (r: Result<seq<Article>>)
    ensures r.Ok? <==> var d := DecodeAnswer(Cleanup(text), parse);
                       d.Ok? && d.value.ArrayOf? && NoNullItem(d.value.items)
    ensures r.Ok? ==> r == Normalize(DecodeAnswer(Cleanup(text), parse).value.items, now)
  {
    match DecodeAnswer(Cleanup(text), parse)
    case Err(e) => Err(e)
    case Ok(NotAnArray) => Err(TypeError)
    case Ok(ArrayOf(items)) => Normalize(items, now)
  }

  /** `fetchNewsArticles(forceRefresh)`. `calledUpstream` tells whether the model
      was asked; the cache is written only after a successful answer, and then
      with exactly the returned list. */
  method FetchNewsArticles(store: LocalStorage, forceRefresh: bool, now: nat,
                           response: AiResponse, parse: string -> Option<Parsed>, writeFits: bool)
    returns (result: Result<seq<Article>>, calledUpstream: bool)
    modifies store
    ensures var read := ReadCache(Lookup(old(store.items), CacheKey), forceRefresh, now);
      && (calledUpstream <==> read.Miss?)
      && (read.Hit? ==> result == Ok(read.data))
      && (read.Broken? ==> result == Err(read.error))
      && (read.Miss? && response.CallRejected? ==> result == Err(UpstreamFailed))
      && (read.Miss? && response.Answered? ==>
            var processed := ProcessAnswer(AnswerText(response), now, parse);
            result == if processed.Ok? && !writeFits then Err(QuotaExceeded) else processed)
    ensures calledUpstream && result.Ok? ==>
              store.items == old(store.items)[CacheKey := CacheEnvelope(now, result.value)]
    ensures !(calledUpstream && result.Ok?) ==> store.items == old(store.items)
  {
    var cached := store.GetItem(CacheKey);
    var read := ReadCache(cached, forceRefresh, now);
    if read.Hit? {
      return Ok(read.data), false;
    } else if read.Broken? {
      return Err(read.error), false;
    }
    calledUpstream := true;
    if response.CallRejected? {
      return Err(UpstreamFailed), calledUpstream;
    }
    var rawText := AnswerText(response);
    rawText := Cleanup(rawText);
    var articles := DecodeAnswer(rawText, parse);
    if articles.Err? {
      return Err(articles.error), calledUpstream;
    }
    if articles.value.NotAnArray? {
      return Err(TypeError), calledUpstream;
    }
    var processedArticles := Normalize(articles.value.items, now);
    if processedArticles.Err? {
      return processedArticles, calledUpstream;
    }
    var written := store.SetItem(CacheKey, CacheEnvelope(now, processedArticles.value), writeFits);
    if !written {
      return Err(QuotaExceeded), calledUpstream;
    }
    result := processedArticles;
  }

  // ---------------------------------------------------------------------------
  // Across calls

  /** After a successful fetch at `now`, a later non-forced fetch serves the same
      list from the cache exactly while less than an hour has passed. */
  lemma CacheServesWrittenBatch(items: map<string, Blob>, now: nat, batch: seq<Article>, later: int)
    ensures var r := ReadCache(Lookup(items[CacheKey := CacheEnvelope(now, batch)], CacheKey), false, later);
      (r == Hit(batch) <==> later - now < CacheDuration)
      && (later - now >= CacheDuration ==> r == Miss)
  {
  }

  /** The cache write never disturbs the comment ledger: the two records live under
      different keys. */
  lemma CacheWriteKeepsComments(items: map<string, Blob>, envelope: Blob, articleId: string)
    ensures CommentStore.GetComments(items[CacheKey := envelope], articleId)
         == CommentStore.GetComments(items, articleId)
  {
  }
}
