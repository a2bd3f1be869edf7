/** The hash router of App.tsx: two pieces of view state, `currentView` and
    `selectedArticleId`, driven by `window.location.hash`. `navigate` writes the
    hash; the browser then fires `hashchange` and `handleHashChange` parses the
    hash back into view state. */
module Router {
  import opened Types
  import opened Strings
  import NewsService

  datatype View = Gallery | ArticleView

  /** The two state fields of the component, as one value. */
  datatype Route = Route(view: View, selected: Option<string>)

  const InitialRoute := Route(Gallery, None)
  const ArticleHashPrefix := "#article/"

  /** The router's invariant: the article view always has an article to show. */
  predicate Consistent(r: Route)
  {
    r.view == ArticleView ==> r.selected.Some? && r.selected.value != ""
  }

  /** `hash.split('/')[1]`, for a hash that starts with `#article/` (so the split
      has at least two pieces). */
  function SecondSegment(hash: string): (id: string)
    requires StartsWith(hash, ArticleHashPrefix)
    ensures '/' !in id
  {
    var parts := Split(hash, '/');
    assert '/' in hash by {
      assert hash[..9] == ArticleHashPrefix;
      assert hash[8] == '/';
    }
    parts[1]
  }

  /** The state `handleHashChange` leaves after reading `hash` in state `r`. */
  function NextRoute(r: Route, hash: string): (next: Route)
    ensures Consistent(r) ==> Consistent(next)
  {
    if StartsWith(hash, ArticleHashPrefix) then
      var id := SecondSegment(hash);
      if id != "" then Route(ArticleView, Some(id)) else r
    else
      Route(Gallery, None)
  }

  /** The three outcomes of a hash change. */
  lemma HashChangeOutcomes(r: Route, hash: string)
    ensures !StartsWith(hash, ArticleHashPrefix) ==> NextRoute(r, hash) == Route(Gallery, None)
    ensures StartsWith(hash, ArticleHashPrefix) && SecondSegment(hash) == "" ==> NextRoute(r, hash) == r
    ensures StartsWith(hash, ArticleHashPrefix) && SecondSegment(hash) != "" ==>
              NextRoute(r, hash) == Route(ArticleView, Some(SecondSegment(hash)))
  {
  }

  /** Reading the same hash twice changes nothing more. */
  lemma NextRouteIdempotent(r: Route, hash: string)
    ensures NextRoute(NextRoute(r, hash), hash) == NextRoute(r, hash)
  {
  }

  /** The id selected by `#article/<id>` followed by anything that starts with `/`
      is exactly `<id>`, when `<id>` has no `/` of its own. */
  lemma {:induction false} SecondSegmentOf(id: string, rest: string)
    requires '/' !in id
    requires rest == [] || rest[0] == '/'
    ensures StartsWith("#article/" + id + rest, ArticleHashPrefix)
    ensures SecondSegment("#article/" + id + rest) == id
  {
    var hash := "#article/" + id + rest;
    assert hash[..9] == ArticleHashPrefix;
    assert hash == "#article" + ("/" + (id + rest));
    SplitPrefix("#article", "/" + (id + rest), '/');
    var after := Split("/" + (id + rest), '/');
    assert after == [""] + Split(id + rest, '/') by {
      assert ("/" + (id + rest))[1..] == id + rest;
    }
    SplitPrefix(id, rest, '/');
    if rest == [] {
      assert id + rest == id && id + "" == id;
    } else {
      assert Split(rest, '/')[0] == "" by {
        assert rest == [rest[0]] + rest[1..];
      }
    }
  }

  // ---------------------------------------------------------------------------
  // Writing the hash

  /** The value `navigate(view, id)` assigns to `window.location.hash`. */
  function NavigateHash(view: View, id: Option<string>): (target: string)
    ensures view == ArticleView && id.Some? && id.value != "" ==> target == "article/" + id.value
    ensures !(view == ArticleView && id.Some? && id.value != "") ==> target == ""
  {
    if view == ArticleView && id.Some? && id.value != "" then "article/" + id.value else ""
  }

  /** What `window.location.hash` reads after `value` is assigned to it: one
      leading `#` is dropped from the value, and an empty fragment reads as `""`. */
  function HashAfterAssign(value: string): (hash: string)
    ensures value == "" ==> hash == ""
    ensures value != "" && value[0] != '#' ==> hash == "#" + value
  {
    var fragment := if |value| > 0 && value[0] == '#' then value[1..] else value;
    if fragment == "" then "" else "#" + fragment
  }

  /** Navigating to an article whose id has no `/`, then handling the new hash,
      selects exactly that article, from any state. */
  lemma NavigateRoundTrip(r: Route, id: string)
    requires id != "" && '/' !in id
    ensures NextRoute(r, HashAfterAssign(NavigateHash(ArticleView, Some(id)))) == Route(ArticleView, Some(id))
  {
    assert HashAfterAssign("article/" + id) == "#article/" + id;
    SecondSegmentOf(id, "");
    assert "#article/" + id + "" == "#article/" + id;
  }

  /** Every other navigation, the detail view's back action included, returns to
      the gallery. */
  lemma NavigateElsewhere(r: Route, view: View, id: Option<string>)
    requires !(view == ArticleView && id.Some? && id.value != "")
    ensures NextRoute(r, HashAfterAssign(NavigateHash(view, id))) == Route(Gallery, None)
  {
  }

  /** The ids the news service generates always survive the trip through the hash. */
  lemma GeneratedIdsRoundTrip(r: Route, ms: nat, index: nat)
    ensures var id := NewsService.ArticleId(ms, index);
      NextRoute(r, HashAfterAssign(NavigateHash(ArticleView, Some(id)))) == Route(ArticleView, Some(id))
  {
    NavigateRoundTrip(r, NewsService.ArticleId(ms, index));
  }

  // ---------------------------------------------------------------------------
  // Rendering and runs of hash changes

  datatype Screen = GalleryScreen | DetailScreen(articleId: string) | NothingShown

  /** What the component renders below the layout: the gallery for the gallery
      view, the detail only for the article view with a (non-empty) selected id. */
  function Render(r: Route): (s: Screen)
    ensures s.DetailScreen? <==> r.view == ArticleView && r.selected.Some? && r.selected.value != ""
    ensures s.DetailScreen? ==> s.articleId == r.selected.value
    ensures s == GalleryScreen <==> r.view == Gallery
  {
    match r.view
    case Gallery => GalleryScreen
    case ArticleView =>
      if r.selected.Some? && r.selected.value != "" then DetailScreen(r.selected.value) else NothingShown
  }

  /** A consistent state always renders a view. */
  lemma ConsistentRendersSomething(r: Route)
    requires Consistent(r)
    ensures Render(r) != NothingShown
  {
  }

  /** The state after the component mounts and then sees `hashes`, in order. */
  function RouteAfter(hashes: seq<string>): Route
  {
    if hashes == [] then InitialRoute else NextRoute(RouteAfter(hashes[..|hashes| - 1]), hashes[|hashes| - 1])
  }

  /** From the initial state, no sequence of hash changes reaches an article view
      without an article. */
  lemma {:induction false} AlwaysConsistent(hashes: seq<string>)
    ensures Consistent(RouteAfter(hashes))
    ensures Render(RouteAfter(hashes)) != NothingShown
  {
    if hashes != [] {
      AlwaysConsistent(hashes[..|hashes| - 1]);
    }
  }

  // ---------------------------------------------------------------------------
  // The component

  class App {
    var currentView: View
    var selectedArticleId: Option<string>
    var locationHash: string   // window.location.hash

    function State(): Route
      reads this
    {
      Route(currentView, selectedArticleId)
    }

    ghost predicate Valid()
      reads this
    {
      Consistent(State())
    }

    /** The state shows what the current hash says. */
    ghost predicate Synced()
      reads this
    {
      NextRoute(State(), locationHash) == State()
    }

    /** Mounting: the state starts at the gallery, and the effect runs the hash
        handler once on load. */
    constructor (initialHash: string)
      ensures Valid() && Synced()
      ensures locationHash == initialHash
      ensures State() == NextRoute(InitialRoute, initialHash)
    {
      currentView := Gallery;
      selectedArticleId := None;
      locationHash := initialHash;
      new;
      HandleHashChange();
    }

    /** `handleHashChange` */
    method HandleHashChange()
      modifies this`currentView, this`selectedArticleId
      ensures State() == NextRoute(old(State()), locationHash)
      ensures old(Valid()) ==> Valid()
      ensures Synced()
    {
      var hash := locationHash;
      if StartsWith(hash, ArticleHashPrefix) {
        var id := SecondSegment(hash);
        if id != "" {
          selectedArticleId := Some(id);
          currentView := ArticleView;
        }
      } else {
        currentView := Gallery;
        selectedArticleId := None;
      }
      NextRouteIdempotent(old(State()), hash);
    }

    /** A hash change the app did not make itself (the back or forward button, an
        edited address): the browser sets the hash and fires `hashchange`. */
    method BrowserHashChange(hash: string)
      modifies this
      ensures locationHash == hash
      ensures State() == NextRoute(old(State()), hash)
      ensures old(Valid()) ==> Valid()
      ensures Synced()
    {
      locationHash := hash;
      HandleHashChange();
    }

    /** `navigate(view, id)`: assigns the hash; `changed` says whether the browser
        will fire `hashchange` (it does not when the hash stays the same). */
    method Navigate(view: View, id: Option<string>) returns (changed: bool)
      modifies this`locationHash
      ensures locationHash == HashAfterAssign(NavigateHash(view, id))
      ensures changed <==> locationHash != old(locationHash)
    {
      var target := NavigateHash(view, id);
      var before := locationHash;
      locationHash := HashAfterAssign(target);
      changed := locationHash != before;
    }

    /** A click that navigates, followed by the browser's `hashchange` when the
        hash moved. */
    method Follow(view: View, id: Option<string>)
      requires Valid() && Synced()
      modifies this
      ensures Valid() && Synced()
      ensures locationHash == HashAfterAssign(NavigateHash(view, id))
      ensures State() == NextRoute(old(State()), locationHash)
    {
      var changed := Navigate(view, id);
      if changed {
        HandleHashChange();
      }
    }
  }

  /** Opening an article from the gallery shows that article. */
  method OpenArticle(app: App, id: string)
    requires app.Valid() && app.Synced()
    requires id != "" && '/' !in id
    modifies app
    ensures app.Valid() && app.Synced()
    ensures app.currentView == ArticleView && app.selectedArticleId == Some(id)
    ensures Render(app.State()) == DetailScreen(id)
  {
    app.Follow(ArticleView, Some(id));
    NavigateRoundTrip(old(app.State()), id);
  }
}
