/** The browser's `localStorage`, shared by the comment store and the news cache.
    A stored string is represented by what `JSON.parse` makes of it, as far as the
    code that reads it back can tell the difference. */
module Storage {
  import opened Types

  datatype Blob =
    | Unparsable                                      // JSON.parse throws a SyntaxError
    | JsonNull                                        // the text "null"
    | CommentList(comments: seq<Comment>)             // an array of comments
    | CacheEnvelope(timestamp: int, data: seq<Article>) // {timestamp, data} with a numeric timestamp
    | OtherJson                                       // any other value: a number, a string, an object without a numeric timestamp

  /** `localStorage.getItem(key)` as the model sees it: `None` when the key is
      absent (or holds the empty string, which every reader tests as falsy). */
  function Lookup(items: map<string, Blob>, key: string): (r: Option<Blob>)
    ensures r.Some? <==> key in items
    ensures r.Some? ==> r.value == items[key]
  {
    if key in items then Some(items[key]) else None
  }

  class LocalStorage {
    var items: map<string, Blob>

    constructor ()
      ensures items == map[]
    {
      items := map[];
    }

    function GetItem(key: string): Option<Blob>
      reads this
    {
      Lookup(items, key)
    }

    /** `localStorage.setItem(key, value)`; `fits` says whether the browser's quota
        admits the write. A refused write stores nothing. */
    method SetItem(key: string, value: Blob, fits: bool) returns (ok: bool)
      modifies this
      ensures ok == fits
      ensures items == if fits then old(items)[key := value] else old(items)
    {
      ok := fits;
      if fits {
        items := items[key := value];
      }
    }
  }
}
