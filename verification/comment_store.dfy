/** The comment ledger of store/db.ts: every comment of every article in one list
    stored under a single localStorage key. Reads filter by article and sort newest
    first; an add reads the whole list, pushes onto it and writes it all back. */
module CommentStore {
  import opened Types
  import opened Strings
  import opened Storage

  const CommentsKey := "news_comments_db"
  const DefaultUser := "Anonymous"

  // ---------------------------------------------------------------------------
  // Filtering by article

  /** `allComments.filter(c => c.articleId === articleId)` */
  function OfArticle(ledger: seq<Comment>, articleId: string): seq<Comment>
  {
    if ledger == [] then []
    else (if ledger[0].articleId == articleId then [ledger[0]] else []) + OfArticle(ledger[1..], articleId)
  }

  /** The filter keeps every comment of the article, as often as the ledger holds
      it, and nothing else. */
  lemma {:induction false} OfArticleExact(ledger: seq<Comment>, articleId: string)
    ensures forall c :: multiset(OfArticle(ledger, articleId))[c]
                          == if c.articleId == articleId then multiset(ledger)[c] else 0
  {
    if ledger != [] {
      OfArticleExact(ledger[1..], articleId);
      assert ledger == [ledger[0]] + ledger[1..];
    }
  }

  lemma {:induction false} OfArticleAppend(ledger: seq<Comment>, more: seq<Comment>, articleId: string)
    ensures OfArticle(ledger + more, articleId) == OfArticle(ledger, articleId) + OfArticle(more, articleId)
  {
    if ledger != [] {
      assert (ledger + more)[1..] == ledger[1..] + more;
      OfArticleAppend(ledger[1..], more, articleId);
    } else {
      assert ledger + more == more;
    }
  }

  // ---------------------------------------------------------------------------
  // The stable newest-first sort

  predicate NewestFirst(s: seq<Comment>)
  {
    forall i, j :: 0 <= i < j < |s| ==> s[i].createdAt >= s[j].createdAt
  }

  /** The comments of `s` created at time `t`, in their order in `s`. A sort is
      stable exactly when it keeps this subsequence for every `t`. */
  function CreatedAt(s: seq<Comment>, t: int): seq<Comment>
  {
    if s == [] then []
    else (if s[0].createdAt == t then [s[0]] else []) + CreatedAt(s[1..], t)
  }

  lemma {:induction false} CreatedAtAppend(s: seq<Comment>, u: seq<Comment>, t: int)
    ensures CreatedAt(s + u, t) == CreatedAt(s, t) + CreatedAt(u, t)
  {
    if s != [] {
      assert (s + u)[1..] == s[1..] + u;
      CreatedAtAppend(s[1..], u, t);
    } else {
      assert s + u == u;
    }
  }

  /** Places `c` in front of the first comment that is not newer than it. */
  function Insert(c: Comment, sorted: seq<Comment>): seq<Comment>
  {
    if sorted == [] || sorted[0].createdAt <= c.createdAt then [c] + sorted
    else [sorted[0]] + Insert(c, sorted[1..])
  }

  lemma {:induction false} InsertPermutes(c: Comment, sorted: seq<Comment>)
    ensures multiset(Insert(c, sorted)) == multiset(sorted) + multiset{c}
  {
    if !(sorted == [] || sorted[0].createdAt <= c.createdAt) {
      InsertPermutes(c, sorted[1..]);
      assert sorted == [sorted[0]] + sorted[1..];
    }
  }

  lemma {:induction false} InsertKeepsOrder(c: Comment, sorted: seq<Comment>)
    requires NewestFirst(sorted)
    ensures NewestFirst(Insert(c, sorted))
  {
    if !(sorted == [] || sorted[0].createdAt <= c.createdAt) {
      var rest := Insert(c, sorted[1..]);
      InsertKeepsOrder(c, sorted[1..]);
      InsertPermutes(c, sorted[1..]);
      forall k | 0 <= k < |rest| ensures sorted[0].createdAt >= rest[k].createdAt {
        assert rest[k] in multiset(rest);
        if rest[k] != c {
          assert rest[k] in multiset(sorted[1..]);
        }
      }
      assert Insert(c, sorted)[1..] == rest;
    }
  }

  lemma {:induction false} InsertStable(c: Comment, sorted: seq<Comment>, t: int)
    ensures CreatedAt(Insert(c, sorted), t) == CreatedAt([c] + sorted, t)
  {
    assert ([c] + sorted)[1..] == sorted;
    if !(sorted == [] || sorted[0].createdAt <= c.createdAt) {
      InsertStable(c, sorted[1..], t);
      assert ([sorted[0]] + Insert(c, sorted[1..]))[1..] == Insert(c, sorted[1..]);
      assert ([c] + sorted[1..])[1..] == sorted[1..];
    }
  }

  /** `.sort((a, b) => b.createdAt - a.createdAt)`, as an insertion sort. */
  function SortNewestFirst(s: seq<Comment>): seq<Comment>
  {
    if s == [] then [] else Insert(s[0], SortNewestFirst(s[1..]))
  }

  /** The sort puts newer comments first, loses and invents nothing, and keeps
      comments created in the same millisecond in their ledger order (the
      engine's sort is stable). */
  lemma {:induction false} SortNewestFirstCorrect(s: seq<Comment>)
    ensures NewestFirst(SortNewestFirst(s))
    ensures multiset(SortNewestFirst(s)) == multiset(s)
    ensures forall t :: CreatedAt(SortNewestFirst(s), t) == CreatedAt(s, t)
  {
    if s != [] {
      var rest := SortNewestFirst(s[1..]);
      SortNewestFirstCorrect(s[1..]);
      InsertPermutes(s[0], rest);
      InsertKeepsOrder(s[0], rest);
      assert s == [s[0]] + s[1..];
      forall t ensures CreatedAt(SortNewestFirst(s), t) == CreatedAt(s, t) {
        InsertStable(s[0], rest, t);
        assert ([s[0]] + rest)[1..] == rest;
      }
    }
  }

  // ---------------------------------------------------------------------------
  // Reading the stored ledger

  /** What `getComments` sees: the stored list, or nothing when the key is absent
      or its value is not a list (the parse or the `filter` call throws, and the
      catch returns `[]`). */
  function LedgerForRead(entry: Option<Blob>): seq<Comment>
  {
    if entry.Some? && entry.value.CommentList? then entry.value.comments else []
  }

  /** What `addComment` sees: an absent key starts an empty list; a value that does
      not parse, or parses to something without `push`, makes it throw. */
  function LedgerForAppend(entry: Option<Blob>): (r: Result<seq<Comment>>)
    ensures entry.None? ==> r == Ok([])
    ensures r.Ok? ==> r.value == LedgerForRead(entry)
    ensures r.Err? <==> entry.Some? && !entry.value.CommentList?
  {
    match entry
    case None => Ok([])
    case Some(CommentList(cs)) => Ok(cs)
    case Some(Unparsable) => Err(SyntaxError)
    case Some(_) => Err(TypeError)
  }

  /** `getComments(articleId)`: reads the snapshot `items` and never writes. */
  function GetComments(items: map<string, Blob>, articleId: string): (r: seq<Comment>)
    ensures var ledger := LedgerForRead(Lookup(items, CommentsKey));
      && (forall c :: multiset(r)[c] == if c.articleId == articleId then multiset(ledger)[c] else 0)
      && NewestFirst(r)
      && (forall t :: CreatedAt(r, t) == CreatedAt(OfArticle(ledger, articleId), t))
    ensures (CommentsKey !in items || !items[CommentsKey].CommentList?) ==> r == []
  {
    OfArticleExact(LedgerForRead(Lookup(items, CommentsKey)), articleId);
    SortNewestFirstCorrect(OfArticle(LedgerForRead(Lookup(items, CommentsKey)), articleId));
    SortNewestFirst(OfArticle(LedgerForRead(Lookup(items, CommentsKey)), articleId))
  }

  // ---------------------------------------------------------------------------
  // Adding a comment

  /** The comment `addComment` builds: the id joins the clock reading and a random
      base-36 suffix (`randomSuffix`, opaque here); the user defaults when omitted. */
  function NewComment(articleId: string, text: string, user: Option<string>, now: nat, randomSuffix: string): (c: Comment)
    ensures c.articleId == articleId && c.text == text && c.createdAt == now
    ensures user.Some? ==> c.user == user.value
    ensures user.None? ==> c.user == DefaultUser
    ensures c.id == "cmt-" + NatToString(now) + "-" + randomSuffix
  {
    Comment(
      id := "cmt-" + NatToString(now) + "-" + randomSuffix,
      articleId := articleId,
      user := if user.Some? then user.value else DefaultUser,
      text := text,
      createdAt := now)
  }

  /** `addComment`: read, push, write back, return the new comment; a ledger that
      cannot be read or a write that does not fit throws and stores nothing. */
  method AddComment(store: LocalStorage, articleId: string, text: string, user: Option<string>,
                    now: nat, randomSuffix: string, writeFits: bool)
    returns (result: Result<Comment>)
    modifies store
    ensures var c := NewComment(articleId, text, user, now, randomSuffix);
      var before := LedgerForAppend(Lookup(old(store.items), CommentsKey));
      && (result.Ok? <==> before.Ok? && writeFits)
      && (result.Ok? ==> result.value == c && store.items == Appended(old(store.items), c))
      && (result.Err? ==> store.items == old(store.items))
      && (before.Err? ==> result == Err(before.error))
      && (before.Ok? && !writeFits ==> result == Err(QuotaExceeded))
  {
    var newComment := NewComment(articleId, text, user, now, randomSuffix);
    var stored := store.GetItem(CommentsKey);
    var allComments := LedgerForAppend(stored);
    if allComments.Err? {
      return Err(allComments.error);
    }
    var ledger := allComments.value;
    ledger := ledger + [newComment];
    var written := store.SetItem(CommentsKey, CommentList(ledger), writeFits);
    if !written {
      return Err(QuotaExceeded);
    }
    result := Ok(newComment);
  }

  // ---------------------------------------------------------------------------
  // What a read sees after an add

  /** The ledger after a successful `addComment` of `c`. */
  function Appended(items: map<string, Blob>, c: Comment): map<string, Blob>
    requires LedgerForAppend(Lookup(items, CommentsKey)).Ok?
  {
    items[CommentsKey := CommentList(LedgerForAppend(Lookup(items, CommentsKey)).value + [c])]
  }

  /** After a successful add, the new comment's article lists exactly one comment
      more: the new one. */
  lemma AddListsNewComment(items: map<string, Blob>, c: Comment)
    requires LedgerForAppend(Lookup(items, CommentsKey)).Ok?
    ensures multiset(GetComments(Appended(items, c), c.articleId))
         == multiset(GetComments(items, c.articleId)) + multiset{c}
  {
  }

  /** Among comments created in the same millisecond the new one is listed last,
      after the ones already stored. */
  lemma AddListsNewCommentLastAmongTies(items: map<string, Blob>, c: Comment)
    requires LedgerForAppend(Lookup(items, CommentsKey)).Ok?
    ensures CreatedAt(GetComments(Appended(items, c), c.articleId), c.createdAt)
         == CreatedAt(GetComments(items, c.articleId), c.createdAt) + [c]
  {
    var ledger := LedgerForAppend(Lookup(items, CommentsKey)).value;
    assert LedgerForRead(Lookup(Appended(items, c), CommentsKey)) == ledger + [c];
    OfArticleAppend(ledger, [c], c.articleId);
    assert OfArticle([c], c.articleId) == [c];
    CreatedAtAppend(OfArticle(ledger, c.articleId), [c], c.createdAt);
    assert CreatedAt([c], c.createdAt) == [c];
  }

  /** An add never changes what any other article lists. */
  lemma AddLeavesOtherArticles(items: map<string, Blob>, c: Comment, other: string)
    requires LedgerForAppend(Lookup(items, CommentsKey)).Ok?
    requires other != c.articleId
    ensures GetComments(Appended(items, c), other) == GetComments(items, other)
  {
    var ledger := LedgerForAppend(Lookup(items, CommentsKey)).value;
    assert LedgerForRead(Lookup(Appended(items, c), CommentsKey)) == ledger + [c];
    OfArticleAppend(ledger, [c], other);
    assert OfArticle([c], other) == [];
    assert OfArticle(ledger, other) + [] == OfArticle(ledger, other);
  }

  /** The first comment ever added becomes the whole ledger. */
  lemma FirstComment(items: map<string, Blob>, c: Comment)
    requires CommentsKey !in items
    ensures LedgerForAppend(Lookup(items, CommentsKey)).Ok?
    ensures GetComments(Appended(items, c), c.articleId) == [c]
  {
  }
}
