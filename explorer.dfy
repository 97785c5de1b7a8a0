/**
  The search session of the timeline explorer: the query and its matches,
  the highlighted suggestion (`activeIndex`), the search panel's open and
  focus flags, the single highlight overlay on the image viewer, the `q`
  parameter of the page URL and the one-shot deep-link jump.

  React state and refs become the fields of `Explorer`; every user or
  browser event is a method that runs the handler and then, in declaration
  order, the effects whose dependencies changed. The image viewer is an
  object holding its overlays; Fuse.js is the abstract `Search`.
 */
module Explorer {
  import opened JsString
  import opened Normalizer
  import opened Corpus
  import opened Options

  /** `MAX_SUGGESTIONS`. */
  const MaxSuggestions: nat := 10

  /** The page URL's search parameters. */
  type Url = map<string, string>

  /** `matches`: nothing without a normalised query or before the entries
      have loaded (no index), otherwise the index's hits for the normalised
      query. */
  function MatchesOf(normalize: string -> string, r: Ranker, entries: seq<Entry>, query: string): (ms: seq<Entry>)
    ensures forall e <- ms :: e in entries
    ensures normalize(query) == "" || entries == [] ==> ms == []
  {
    if normalize(query) == "" || |entries| == 0 then [] else Search(r, entries, normalize(query))
  }

  /** `visibleMatches`: the first ten matches. */
  function Visible(ms: seq<Entry>): (vs: seq<Entry>)
    ensures |vs| <= MaxSuggestions && |vs| <= |ms|
    ensures vs == ms[..|vs|]
    ensures |vs| == 0 <==> |ms| == 0
  {
    Take(ms, MaxSuggestions)
  }

  /** `activeSuggestionIndex`: 0 for an empty list, otherwise activeIndex
      clamped into the list. */
  function ActiveSuggestionIndex(activeIndex: nat, visibleCount: nat): (r: nat)
    ensures visibleCount == 0 ==> r == 0
    ensures visibleCount > 0 ==> r < visibleCount
    ensures activeIndex < visibleCount ==> r == activeIndex
    ensures r <= activeIndex
  {
    if visibleCount == 0 then 0 else Min(activeIndex, visibleCount - 1)
  }

  /** The `n` key: `(activeIndex + 1) % matches.length`. */
  function NextIndex(a: nat, len: nat): (r: nat)
    requires len > 0
    ensures r < len
  {
    (a + 1) % len
  }

  /** The `p` key: `(activeIndex - 1 + matches.length) % matches.length`. */
  function PrevIndex(a: nat, len: nat): (r: nat)
    requires len > 0
    ensures r < len
  {
    (a - 1 + len) % len
  }

  /** `n` on the last match wraps to the first, `p` on the first wraps to
      the last, and elsewhere they step by one. */
  lemma NextPrevWrap(a: nat, len: nat)
    requires a < len
    ensures NextIndex(a, len) == if a == len - 1 then 0 else a + 1
    ensures PrevIndex(a, len) == if a == 0 then len - 1 else a - 1
  {
    if a == len - 1 {
      ModSelf(len);
    } else {
      ModBelow(a + 1, len);
    }
    if a > 0 {
      ModShifted(a - 1, len);
    } else {
      ModBelow(len - 1, len);
    }
  }

  lemma ModBelow(x: int, n: int)
    requires 0 <= x < n
    ensures x % n == x
  {
  }

  lemma ModShifted(x: int, n: int)
    requires 0 <= x < n
    ensures (x + n) % n == x
  {
  }

  lemma ModSelf(n: int)
    requires 0 < n
    ensures n % n == 0
  {
  }

  /** `n` and `p` undo each other on every position of the list. */
  lemma NextPrevInverse(a: nat, len: nat)
    requires a < len
    ensures PrevIndex(NextIndex(a, len), len) == a
    ensures NextIndex(PrevIndex(a, len), len) == a
  {
    NextPrevWrap(a, len);
    NextPrevWrap(NextIndex(a, len), len);
    NextPrevWrap(PrevIndex(a, len), len);
  }

  /** ArrowDown: `(Math.min(prev, visible - 1) + 1) % visible`. */
  function ArrowDownIndex(prev: nat, visibleCount: nat): (r: nat)
    requires visibleCount > 0
    ensures r < visibleCount
    ensures r == NextIndex(ActiveSuggestionIndex(prev, visibleCount), visibleCount)
  {
    (Min(prev, visibleCount - 1) + 1) % visibleCount
  }

  /** ArrowUp: `(Math.min(activeIndex, visible - 1) - 1 + visible) % visible`. */
  function ArrowUpIndex(activeIndex: nat, visibleCount: nat): (r: nat)
    requires visibleCount > 0
    ensures r < visibleCount
    ensures r == PrevIndex(ActiveSuggestionIndex(activeIndex, visibleCount), visibleCount)
  {
    (Min(activeIndex, visibleCount - 1) - 1 + visibleCount) % visibleCount
  }

  /** ArrowUp after ArrowDown, and ArrowDown after ArrowUp, lead back to the
      highlighted suggestion (clamped into the list). */
  lemma ArrowInverse(a: nat, visibleCount: nat)
    requires visibleCount > 0
    ensures ArrowUpIndex(ArrowDownIndex(a, visibleCount), visibleCount) == ActiveSuggestionIndex(a, visibleCount)
    ensures ArrowDownIndex(ArrowUpIndex(a, visibleCount), visibleCount) == ActiveSuggestionIndex(a, visibleCount)
  {
    NextPrevInverse(ActiveSuggestionIndex(a, visibleCount), visibleCount);
  }

  /** Effect on `query`: `q` holds the normalised query, or is deleted when
      that is empty; no other parameter changes. */
  function SyncedUrl(normalize: string -> string, url: Url, query: string): (r: Url)
    ensures r - {"q"} == url - {"q"}
    ensures "q" in r <==> normalize(query) != ""
    ensures "q" in r ==> r["q"] == normalize(query)
  {
    if normalize(query) != "" then url["q" := normalize(query)] else url - {"q"}
  }

  /** The URL reflects the query. */
  predicate InSync(normalize: string -> string, url: Url, query: string)
  {
    && ("q" in url <==> normalize(query) != "")
    && ("q" in url ==> url["q"] == normalize(query))
  }

  /** Synchronising a URL that already reflects the query changes nothing. */
  lemma SyncedUrlOfInSync(normalize: string -> string, url: Url, query: string)
    requires InSync(normalize, url, query)
    ensures SyncedUrl(normalize, url, query) == url
  {
    var r := SyncedUrl(normalize, url, query);
    assert forall k :: k in r <==> k in url;
  }

  /** `url.searchParams.get("q")` when it is truthy: the deep-link query. */
  function SeedQuery(url: Url): (r: Option<string>)
    ensures r.Some? <==> "q" in url && url["q"] != ""
    ensures r.Some? ==> r.value == url["q"]
  {
    if "q" in url && url["q"] != "" then Some(url["q"]) else None
  }

  /** The mount-time URL synchronisation runs with the empty query, so it
      deletes `q` before the entries have loaded and the deep link can never
      be read. */
  lemma DeepLinkErasedAtMount(normalize: string -> string, url0: Url)
    requires normalize("") == ""
    ensures SeedQuery(SyncedUrl(normalize, url0, "")) == None
  {
  }

  /** The normaliser maps the empty query to itself, so it meets the
      requirement of `DeepLinkErasedAtMount`. */
  lemma QueryNormalizerOfEmpty(u: Unicode)
    ensures QueryNormalizer(u)("") == ""
  {
    NormalizeEmpty(u);
  }

  /** Where a mousedown landed. */
  datatype PointerTarget = NoTarget | InsideSearch | Elsewhere

  /** The session's plain state, for stating what an event changes. */
  datatype Session = Session(
    entries: seq<Entry>,
    query: string,
    activeIndex: nat,
    isInputFocused: bool,
    isSearchOpen: bool,
    url: Url,
    initialQueryHandled: bool,
    isReady: bool)

  /** The `highlight-overlay` element placed over a match. */
  class Overlay {
    const location: BBox

    constructor(location: BBox)
      ensures this.location == location
    {
      this.location := location;
    }
  }

  /** The image viewer, reduced to the overlays it shows. */
  class Viewer {
    var overlays: set<Overlay>

    constructor()
      ensures overlays == {}
    {
      overlays := {};
    }

    method AddOverlay(o: Overlay)
      modifies this
      ensures overlays == old(overlays) + {o}
    {
      overlays := overlays + {o};
    }

    method RemoveOverlay(o: Overlay)
      modifies this
      ensures overlays == old(overlays) - {o}
    {
      overlays := overlays - {o};
    }
  }

  class Explorer {
    const normalizeQuery: string -> string
    const ranker: Ranker
    /** `osdRef`. */
    var viewer: Viewer?
    var isReady: bool
    /** `activeOverlayRef`. */
    var activeOverlay: Overlay?
    /** `initialQueryHandledRef`. */
    var initialQueryHandled: bool
    var entries: seq<Entry>
    var query: string
    var activeIndex: nat
    var isInputFocused: bool
    var isSearchOpen: bool
    var url: Url

    function State(): Session
      reads this
    {
      Session(entries, query, activeIndex, isInputFocused, isSearchOpen, url, initialQueryHandled, isReady)
    }

    function Matches(): seq<Entry>
      reads this
    {
      MatchesOf(normalizeQuery, ranker, entries, query)
    }

    function VisibleMatches(): seq<Entry>
      reads this
    {
      Visible(Matches())
    }

    /** `shouldShowSuggestions`. */
    predicate ShouldShowSuggestions()
      reads this
    {
      isSearchOpen && isInputFocused && |query| > 0
    }

    /** The session invariant: the viewer shows exactly the active overlay,
      which exists only on a ready viewer; the highlighted index is 0 or
      names a match; the URL reflects the query. */
    ghost predicate Valid()
      reads this, viewer
    {
      && (activeOverlay != null ==> viewer != null && isReady)
      && (viewer != null ==> viewer.overlays == if activeOverlay == null then {} else {activeOverlay})
      && (activeIndex == 0 || activeIndex < |Matches()|)
      && InSync(normalizeQuery, url, query)
    }

    /** At most one highlight overlay is ever live. */
    lemma AtMostOneOverlay()
      requires Valid()
      ensures viewer != null ==> |viewer.overlays| <= 1
    {
    }

    /** The overlay and the viewer are as they were. */
    twostate predicate OverlayKept()
      reads this, viewer
    {
      && viewer == old(viewer)
      && activeOverlay == old(activeOverlay)
      && (viewer != null ==> viewer.overlays == old(viewer.overlays))
    }

    /** `focusBounds(entry)` took effect: on a ready viewer a new overlay at
      the box replaced the old one; otherwise nothing changed. */
    twostate predicate FocusedOn(b: BBox)
      reads this, viewer
    {
      && viewer == old(viewer)
      && if viewer != null && isReady then
           && activeOverlay != null && fresh(activeOverlay)
           && activeOverlay.location == b
           && viewer.overlays == {activeOverlay}
         else
           && activeOverlay == old(activeOverlay)
           && (viewer != null ==> viewer.overlays == old(viewer.overlays))
    }

    /** The component mounts: initial state, then the mount-time effects;
      the URL synchronisation runs with the empty query. */
    constructor Mount(normalizeQuery: string -> string, ranker: Ranker, url0: Url)
      ensures Valid()
      ensures this.normalizeQuery == normalizeQuery && this.ranker == ranker
      ensures viewer == null && activeOverlay == null
      ensures State() == Session([], "", 0, false, false, SyncedUrl(normalizeQuery, url0, ""), false, false)
    {
      this.normalizeQuery := normalizeQuery;
      this.ranker := ranker;
      viewer := null;
      isReady := false;
      activeOverlay := null;
      initialQueryHandled := false;
      entries := [];
      query := "";
      activeIndex := 0;
      isInputFocused := false;
      isSearchOpen := false;
      url := SyncedUrl(normalizeQuery, url0, "");
    }

    /** The mount with the deep link kept: the query starts from the URL's
      `q` and the one-shot jump is armed at once, so the later URL
      synchronisation cannot erase it. */
    constructor MountKeepingDeepLink(normalizeQuery: string -> string, ranker: Ranker, url0: Url)
      ensures Valid()
      ensures this.normalizeQuery == normalizeQuery && this.ranker == ranker
      ensures viewer == null && activeOverlay == null
      ensures var seed := SeedQuery(url0);
        var q := if seed.Some? then seed.value else "";
        State() == Session([], q, 0, false, false, SyncedUrl(normalizeQuery, url0, q), seed.Some?, false)
    {
      this.normalizeQuery := normalizeQuery;
      this.ranker := ranker;
      viewer := null;
      isReady := false;
      activeOverlay := null;
      var seed := SeedQuery(url0);
      initialQueryHandled := seed.Some?;
      entries := [];
      var q := if seed.Some? then seed.value else "";
      query := q;
      activeIndex := 0;
      isInputFocused := false;
      isSearchOpen := false;
      url := SyncedUrl(normalizeQuery, url0, q);
    }

    /** `clearOverlay`: the active overlay leaves the viewer. */
    method ClearOverlay()
      requires Valid()
      modifies this, viewer
      ensures Valid()
      ensures State() == old(State()) && viewer == old(viewer)
      ensures activeOverlay == null
      ensures viewer != null ==> viewer.overlays == {}
    {
      if viewer != null && activeOverlay != null {
        viewer.RemoveOverlay(activeOverlay);
      }
      activeOverlay := null;
    }

    /** `focusBounds(entry)`: without a ready viewer nothing happens;
      otherwise the old overlay is removed before a new one is added. */
    method FocusBounds(e: Entry)
      requires Valid()
      modifies this, viewer
      ensures Valid()
      ensures State() == old(State())
      ensures FocusedOn(e.bbox)
    {
      if viewer == null || !isReady {
        return;
      }
      ClearOverlay();
      var overlay := new Overlay(e.bbox);
      viewer.AddOverlay(overlay);
      activeOverlay := overlay;
    }

    /** `jumpToMatch(index)`: an index that names no match changes nothing;
      otherwise that match becomes the highlighted one and is focused. */
    method JumpToMatch(index: int)
      requires Valid()
      modifies this, viewer
      ensures Valid()
      ensures !(0 <= index < |old(Matches())|) ==> State() == old(State()) && OverlayKept()
      ensures 0 <= index < |old(Matches())| ==>
        State() == old(State()).(activeIndex := index) && FocusedOn(old(Matches())[index].bbox)
    {
      var ms := Matches();
      if !(0 <= index < |ms|) {
        return;
      }
      activeIndex := index;
      FocusBounds(ms[index]);
    }

    /** The effect at lines 330-336: once matches exist while the deep link
      is pending, jump to the first one and disarm. */
    method AutoJump()
      requires Valid()
      modifies this, viewer
      ensures Valid()
      ensures !(|old(Matches())| > 0 && old(initialQueryHandled)) ==> State() == old(State()) && OverlayKept()
      ensures |old(Matches())| > 0 && old(initialQueryHandled) ==>
        && State() == old(State()).(activeIndex := 0, initialQueryHandled := false)
        && FocusedOn(old(Matches())[0].bbox)
    {
      if |Matches()| == 0 || !initialQueryHandled {
        return;
      }
      JumpToMatch(0);
      initialQueryHandled := false;
    }

    /** The viewer is constructed (`osdRef.current = viewer`), unless one
      exists already. */
    method ViewerCreated()
      requires Valid()
      modifies this
      ensures Valid()
      ensures State() == old(State()) && activeOverlay == old(activeOverlay)
      ensures old(viewer) != null ==> viewer == old(viewer)
      ensures old(viewer) == null ==> viewer != null && fresh(viewer) && viewer.overlays == {}
    {
      if viewer == null {
        viewer := new Viewer();
      }
    }

    /** The viewer's `open` event sets `isReady`; when that changes it, the
      auto-jump effect runs again. */
    method ViewerOpened()
      requires Valid() && viewer != null
      modifies this, viewer
      ensures Valid()
      ensures old(isReady) ==> State() == old(State()) && OverlayKept()
      ensures !old(isReady) && !(|old(Matches())| > 0 && old(initialQueryHandled)) ==>
        State() == old(State()).(isReady := true) && OverlayKept()
      ensures !old(isReady) && |old(Matches())| > 0 && old(initialQueryHandled) ==>
        && State() == old(State()).(isReady := true, activeIndex := 0, initialQueryHandled := false)
        && FocusedOn(old(Matches())[0].bbox)
    {
      if isReady {
        return;
      }
      isReady := true;
      AutoJump();
    }

    /** The query changes (`onChange`); when it really changes,
      `activeIndex` is reset, the URL is synchronised and the auto-jump
      effect runs. */
    method QueryChanged(value: string)
      requires Valid()
      modifies this, viewer
      ensures Valid()
      ensures value == old(query) ==> State() == old(State()) && OverlayKept()
      ensures value != old(query) ==>
        var reset := old(State()).(query := value, activeIndex := 0, url := SyncedUrl(normalizeQuery, old(url), value));
        var ms := MatchesOf(normalizeQuery, ranker, old(entries), value);
        if |ms| > 0 && old(initialQueryHandled) then
          State() == reset.(initialQueryHandled := false) && FocusedOn(ms[0].bbox)
        else
          State() == reset && OverlayKept()
    {
      if value == query {
        return;
      }
      query := value;
      activeIndex := 0;
      url := SyncedUrl(normalizeQuery, url, query);
      AutoJump();
    }

    /** The effect at lines 303-313 once entries exist: unless the jump
      was handled already, a non-empty `q` in the URL is read and the
      one-shot jump armed; the query it yields is returned for the caller's
      next render. */
    method ReadDeepLink() returns (seed: Option<string>)
      requires Valid()
      modifies this
      ensures Valid()
      ensures seed == if old(initialQueryHandled) then None else SeedQuery(url)
      ensures State() == old(State()).(initialQueryHandled := old(initialQueryHandled) || seed.Some?)
      ensures OverlayKept()
    {
      seed := None;
      if !initialQueryHandled {
        seed := SeedQuery(url);
        if seed.Some? {
          initialQueryHandled := true;
        }
      }
    }

    /** The render that stores non-empty entries: the deep link is read,
      then the auto-jump effect runs over the current query's matches in
      the new entries. */
    method StoreEntries(data: seq<Entry>) returns (seed: Option<string>)
      requires Valid() && entries == [] && |data| > 0
      modifies this, viewer
      ensures Valid()
      ensures seed == if old(initialQueryHandled) then None else SeedQuery(old(url))
      ensures var armed := old(initialQueryHandled) || seed.Some?;
        var before := MatchesOf(normalizeQuery, ranker, data, old(query));
        if armed && |before| > 0 then
          State() == old(State()).(entries := data, activeIndex := 0, initialQueryHandled := false)
          && FocusedOn(before[0].bbox)
        else
          State() == old(State()).(entries := data, initialQueryHandled := armed) && OverlayKept()
    {
      entries := data;
      seed := ReadDeepLink();
      AutoJump();
    }

    /** The OCR entries arrive (once). In the render that stores them, the
      deep-link effect reads `q` from the URL if the jump has not been
      handled and arms it, and the auto-jump effect runs over the matches of
      the current query; if `q` differs from the query, a second render
      applies it as a query change would. */
    method EntriesLoaded(data: seq<Entry>)
      requires Valid() && entries == []
      modifies this, viewer
      ensures Valid()
      ensures entries == data
      ensures |data| == 0 ==> State() == old(State()).(entries := data) && OverlayKept()
      ensures |data| > 0 ==>
        var seed := if old(initialQueryHandled) then None else SeedQuery(old(url));
        var armed := old(initialQueryHandled) || seed.Some?;
        var before := MatchesOf(normalizeQuery, ranker, data, old(query));
        && query == (if seed.Some? then seed.value else old(query))
        && url == SyncedUrl(normalizeQuery, old(url), query)
        && initialQueryHandled == (armed && |before| == 0 && |Matches()| == 0)
        && activeIndex == (if query != old(query) || (armed && |before| > 0) then 0 else old(activeIndex))
        && isInputFocused == old(isInputFocused) && isSearchOpen == old(isSearchOpen)
        && isReady == old(isReady) && viewer == old(viewer)
    {
      if |data| == 0 {
        entries := data;
        return;
      }
      var seed := StoreEntries(data);
      if seed.Some? && seed.value != query {
        QueryChanged(seed.value);
      } else {
        SyncedUrlOfInSync(normalizeQuery, url, query);
      }
    }

    /** `/` outside a text field opens the panel, which focuses the input;
      Escape closes the panel and drops focus; `n` and `p` outside a text
      field jump to the next and previous match, cyclically. */
    method WindowKeyDown(key: string, isTyping: bool)
      requires Valid()
      modifies this, viewer
      ensures Valid()
      ensures key == "/" && !isTyping ==>
        State() == old(State()).(isSearchOpen := true, isInputFocused := old(isInputFocused) || !old(isSearchOpen))
        && OverlayKept()
      ensures key == "Escape" ==>
        State() == old(State()).(isSearchOpen := false, isInputFocused := false) && OverlayKept()
      ensures key == "n" && !isTyping && |old(Matches())| > 0 ==>
        var next := NextIndex(old(activeIndex), |old(Matches())|);
        State() == old(State()).(activeIndex := next) && FocusedOn(old(Matches())[next].bbox)
      ensures key == "p" && !isTyping && |old(Matches())| > 0 ==>
        var prev := PrevIndex(old(activeIndex), |old(Matches())|);
        State() == old(State()).(activeIndex := prev) && FocusedOn(old(Matches())[prev].bbox)
      ensures (key != "/" || isTyping) && key != "Escape" && (key !in {"n", "p"} || isTyping || |old(Matches())| == 0) ==>
        State() == old(State()) && OverlayKept()
    {
      // The four tests of the handler look at distinct keys, so at most one
      // of them fires.
      var ms := Matches();
      if key == "/" {
        if !isTyping && !isSearchOpen {
          isSearchOpen := true;
          isInputFocused := true;
        }
      } else if key == "Escape" {
        isInputFocused := false;
        isSearchOpen := false;
      } else if !isTyping && key == "n" && |ms| > 0 {
        JumpToMatch(NextIndex(activeIndex, |ms|));
      } else if !isTyping && key == "p" && |ms| > 0 {
        JumpToMatch(PrevIndex(activeIndex, |ms|));
      }
    }

    /** The search input's own key handler: ArrowDown and ArrowUp move the
      highlight through the visible suggestions, cyclically; Enter with
      matches jumps to the highlighted one (the blur it then asks for
      arrives as `BlurTimerFired`). */
    method SuggestionKey(key: string)
      requires Valid()
      modifies this, viewer
      ensures Valid()
      ensures var n := |old(VisibleMatches())|;
        if key == "ArrowDown" then
          State() == old(State()).(activeIndex := if n > 0 then ArrowDownIndex(old(activeIndex), n) else old(activeIndex))
          && OverlayKept()
        else if key == "ArrowUp" then
          State() == old(State()).(activeIndex := if n > 0 then ArrowUpIndex(old(activeIndex), n) else old(activeIndex))
          && OverlayKept()
        else if key == "Enter" && |old(Matches())| > 0 then
          var target := ActiveSuggestionIndex(old(activeIndex), n);
          State() == old(State()).(activeIndex := target) && FocusedOn(old(Matches())[target].bbox)
        else
          State() == old(State()) && OverlayKept()
    {
      var vs := VisibleMatches();
      if key == "ArrowDown" {
        if |vs| > 0 {
          activeIndex := ArrowDownIndex(activeIndex, |vs|);
        }
      } else if key == "ArrowUp" {
        if |vs| > 0 {
          activeIndex := ArrowUpIndex(activeIndex, |vs|);
        }
      } else if key == "Enter" && |Matches()| > 0 {
        JumpToMatch(ActiveSuggestionIndex(activeIndex, |vs|));
      }
    }

    /** A key pressed in the search input: the input's handler runs, then
      the event reaches the window handler as typed text, where only
      Escape acts. */
    method InputKeyDown(key: string)
      requires Valid()
      modifies this, viewer
      ensures Valid()
      ensures key == "ArrowDown" ==>
        var n := |old(VisibleMatches())|;
        State() == old(State()).(activeIndex := if n > 0 then ArrowDownIndex(old(activeIndex), n) else old(activeIndex))
        && OverlayKept()
      ensures key == "ArrowUp" ==>
        var n := |old(VisibleMatches())|;
        State() == old(State()).(activeIndex := if n > 0 then ArrowUpIndex(old(activeIndex), n) else old(activeIndex))
        && OverlayKept()
      ensures key == "Enter" && |old(Matches())| > 0 ==>
        var target := ActiveSuggestionIndex(old(activeIndex), |old(VisibleMatches())|);
        State() == old(State()).(activeIndex := target) && FocusedOn(old(Matches())[target].bbox)
      ensures key == "Escape" ==>
        State() == old(State()).(isSearchOpen := false, isInputFocused := false) && OverlayKept()
      ensures key !in {"ArrowDown", "ArrowUp", "Escape"} && !(key == "Enter" && |old(Matches())| > 0) ==>
        State() == old(State()) && OverlayKept()
    {
      SuggestionKey(key);
      WindowKeyDown(key, true);
    }

    /** The input gains focus. */
    method InputFocused()
      requires Valid()
      modifies this
      ensures Valid()
      ensures State() == old(State()).(isInputFocused := true) && OverlayKept()
    {
      isInputFocused := true;
    }

    /** The timer the input's blur handler sets fires. */
    method BlurTimerFired()
      requires Valid()
      modifies this
      ensures Valid()
      ensures State() == old(State()).(isInputFocused := false) && OverlayKept()
    {
      isInputFocused := false;
    }

    /** The search button toggles the panel: closing also drops focus,
      opening focuses the input. */
    method ToggleClicked()
      requires Valid()
      modifies this
      ensures Valid()
      ensures State() == old(State()).(isSearchOpen := !old(isSearchOpen), isInputFocused := !old(isSearchOpen))
      ensures OverlayKept()
    {
      if isSearchOpen {
        isInputFocused := false;
        isSearchOpen := false;
      } else {
        isSearchOpen := true;
        isInputFocused := true;
      }
    }

    /** A mousedown outside the search block closes the panel and drops
      focus; one inside it, or without a target, does nothing. */
    method PointerDown(target: PointerTarget)
      requires Valid()
      modifies this
      ensures Valid()
      ensures target == Elsewhere ==> State() == old(State()).(isSearchOpen := false, isInputFocused := false)
      ensures target != Elsewhere ==> State() == old(State())
      ensures OverlayKept()
    {
      if target == Elsewhere {
        isSearchOpen := false;
        isInputFocused := false;
      }
    }

    /** The pointer enters a shown suggestion: it becomes the highlighted
      one. */
    method SuggestionHovered(i: nat)
      requires Valid() && ShouldShowSuggestions() && i < |VisibleMatches()|
      modifies this
      ensures Valid()
      ensures State() == old(State()).(activeIndex := i) && OverlayKept()
    {
      activeIndex := i;
    }

    /** A shown suggestion is clicked: the explorer jumps to it. */
    method SuggestionClicked(i: nat)
      requires Valid() && ShouldShowSuggestions() && i < |VisibleMatches()|
      modifies this, viewer
      ensures Valid()
      ensures State() == old(State()).(activeIndex := i) && FocusedOn(old(VisibleMatches())[i].bbox)
    {
      JumpToMatch(i);
    }
  }

  /** As written: whatever the page URL and the entries, the query is still
      empty after the entries load and no jump is pending, because the
      mount-time synchronisation has already removed `q`. */
  method DeepLinkAsWritten(normalize: string -> string, r: Ranker, url0: Url, data: seq<Entry>) returns (query: string, pending: bool)
    requires normalize("") == ""
    ensures query == "" && !pending
  {
    var e := new Explorer.Mount(normalize, r, url0);
    DeepLinkErasedAtMount(normalize, url0);
    e.EntriesLoaded(data);
    query := e.query;
    pending := e.initialQueryHandled;
  }

  /** Corrected: a link `?q=...` becomes the query, and once entries with
      matches for it arrive the first match is jumped to and the one-shot
      jump is spent. */
  method DeepLinkCorrected(normalize: string -> string, r: Ranker, url0: Url, data: seq<Entry>) returns (query: string, pending: bool, active: nat)
    requires SeedQuery(url0).Some?
    ensures query == url0["q"]
    ensures |MatchesOf(normalize, r, data, query)| > 0 ==> !pending && active == 0
    ensures |MatchesOf(normalize, r, data, query)| == 0 ==> pending
  {
    var e := new Explorer.MountKeepingDeepLink(normalize, r, url0);
    e.EntriesLoaded(data);
    query := e.query;
    pending := e.initialQueryHandled;
    active := e.activeIndex;
  }
}
