/**
  The history manager's two stacks, as the Firefox branch uses them, and the timeline with
  a cursor that they stand for.
 */
module BrowserHistory {
  import opened Wrappers
  import opened JsString

  const HASH: CodeUnit := 35

  datatype Entry = Entry(baseUrl: Str, newUrl: Str, flexAppUrl: Str)

  // ---------- Locations ----------

  /** What lies after the first '#', or nothing. */
  function GetHash(href: Str): Str {
    var i := Find(href, HASH, 0);
    if i < |href| then href[i + 1..] else []
  }

  function BaseUrl(href: Str): Str {
    href[..Find(href, HASH, 0)]
  }

  /** `location.hash`: empty for an empty fragment, else the fragment with its '#'. */
  function LocationHash(href: Str): Str {
    if GetHash(href) == [] then [] else [HASH] + GetHash(href)
  }

  /** The location after `location.hash = hash`; one leading '#' is not part of the fragment. */
  function WithHash(href: Str, hash: Str): Str {
    BaseUrl(href) + [HASH] + (if hash != [] && hash[0] == HASH then hash[1..] else hash)
  }

  // ---------- The timeline ----------

  /** Visited entries oldest first; the cursor counts those up to the current page, and at
      zero the current page is the initial one. */
  datatype Timeline = Timeline(initial: Entry, entries: seq<Entry>, cursor: nat) {
    predicate Valid() {
      cursor <= |entries|
    }

    function Current(): Entry
      requires Valid()
    {
      if cursor == 0 then initial else entries[cursor - 1]
    }

    function Back(): (t: Timeline)
      requires Valid()
      ensures t.Valid()
    {
      if cursor == 0 then this else this.(cursor := cursor - 1)
    }

    function Forward(): (t: Timeline)
      requires Valid()
      ensures t.Valid()
    {
      if cursor == |entries| then this else this.(cursor := cursor + 1)
    }

    /** Forgets everything after the cursor. */
    function Truncate(): (t: Timeline)
      requires Valid()
      ensures t.Valid()
    {
      this.(entries := entries[..cursor])
    }

    /** Replaces the current page if it has the same application URL, then visits `e`. */
    function Visit(e: Entry): (t: Timeline)
      requires Valid()
      ensures t.Valid()
    {
      var past := entries[..cursor];
      if Current().flexAppUrl != e.flexAppUrl then Timeline(initial, past + [e], cursor + 1)
      else if cursor == 0 then Timeline(e, [e], 1)
      else Timeline(initial, past[cursor - 1 := e] + [e], cursor + 1)
    }

    predicate NextIs(hash: Str)
      requires Valid()
    {
      cursor < |entries| && entries[cursor].flexAppUrl == hash
    }

    predicate PreviousIs(hash: Str)
      requires Valid()
    {
      cursor >= 2 && entries[cursor - 2].flexAppUrl == hash
    }

    /** One poll that finds the location changed to a fragment `hash`. */
    function Poll(hash: Str, atInitial: bool): (t: Timeline)
      requires Valid()
      ensures t.Valid()
    {
      if cursor == 1 && atInitial then
        // the initial page, unless the entry just left is the one the location names
        if entries[0].flexAppUrl == hash then this else Back()
      else if NextIs(hash) && PreviousIs(hash) then this
      else if NextIs(hash) then Forward()
      else if PreviousIs(hash) then Back()
      else Truncate()
    }
  }

  /** The poll as its handlers fire, one after the other. */
  function PollBySteps(t: Timeline, hash: Str, atInitial: bool): Timeline
    requires t.Valid()
  {
    var back := atInitial && t.cursor == 1;
    var t1 := if back then t.Back() else t;
    var forward := t1.NextIs(hash);
    var t2 := if forward then t1.Forward() else t1;
    var back2 := t.cursor >= 2 && t.PreviousIs(hash);
    var t3 := if back2 then t2.Back() else t2;
    if !back && !forward && !back2 then t3.Truncate() else t3
  }

  lemma PollStepsAddUp(t: Timeline, hash: Str, atInitial: bool)
    requires t.Valid()
    ensures PollBySteps(t, hash, atInitial) == t.Poll(hash, atInitial)
  {
  }

  /** A poll moves the cursor by at most one; it keeps the timeline, or drops only the part
      after a cursor that stays. */
  lemma PollMovesOneStep(t: Timeline, hash: Str, atInitial: bool)
    requires t.Valid()
    ensures var p := t.Poll(hash, atInitial);
            && p.initial == t.initial
            && -1 <= p.cursor - t.cursor <= 1
            && (p.entries == t.entries || (p.cursor == t.cursor && p.entries == t.entries[..t.cursor]))
  {
  }

  /** A poll ends on an entry carrying the new hash exactly when one neighbour alone carries it, or
      both or neither do and the current entry carries it; on the first entry, with the initial
      page's location, when that entry or the initial page carries it.  In particular two equal
      neighbours leave the stacks on the old page. */
  lemma PollFindsHash(t: Timeline, hash: Str, atInitial: bool)
    requires t.Valid()
    ensures t.Poll(hash, atInitial).Current().flexAppUrl == hash <==>
              if t.cursor == 1 && atInitial then t.Current().flexAppUrl == hash || t.initial.flexAppUrl == hash
              else t.NextIs(hash) != t.PreviousIs(hash) || t.Current().flexAppUrl == hash
    ensures t.NextIs(hash) && !t.PreviousIs(hash) && !(t.cursor == 1 && atInitial) ==>
              t.Poll(hash, atInitial).Current() == t.entries[t.cursor]
    ensures !t.NextIs(hash) && t.PreviousIs(hash) ==> t.Poll(hash, atInitial).Current() == t.entries[t.cursor - 2]
  {
  }

  /** The forward part is dropped exactly when no handler moves the cursor: when the poll is not of
      the initial page from the first entry and neither neighbour carries the hash. */
  lemma PollDropsForward(t: Timeline, hash: Str, atInitial: bool)
    requires t.Valid() && t.cursor < |t.entries|
    ensures |t.Poll(hash, atInitial).entries| == t.cursor <==>
              && !(t.cursor == 1 && atInitial)
              && t.entries[t.cursor].flexAppUrl != hash
              && (t.cursor >= 2 ==> t.entries[t.cursor - 2].flexAppUrl != hash)
  {
  }

  // ---------- Runs ----------

  /** The timeline together with the manager's last known and the browser's actual location. */
  datatype Session = Session(timeline: Timeline, currentHref: Str, location: Str)

  /** What the page can undergo: the application sets the URL, or the browser changes the location
      and a poll follows.  The others are single operations, which the page makes only as parts of
      these two; the bare addition of an entry leaves the known location to its caller. */
  datatype Event =
    | UrlSet(flexAppUrl: Str)
    | Navigated(href: Str)
    | Added(e: Entry)
    | BackButton
    | ForwardButton
    | ArbitraryUrl

  predicate AtHome(home: Str, href: Str) {
    LocationHash(href) == LocationHash(home) || href == home
  }

  /** The location is like the initial one exactly when it has the same fragment. */
  lemma AtHomeIff(home: Str, href: Str)
    ensures AtHome(home, href) <==> GetHash(href) == GetHash(home)
  {
    assert LocationHash(href) == LocationHash(home) && GetHash(href) != [] ==>
      LocationHash(href)[1..] == LocationHash(home)[1..];
  }

  /** The entry that setting the URL adds, unless the browser is there already. */
  function NewEntry(location: Str, flexAppUrl: Str): Option<Entry> {
    var baseUrl := BaseUrl(location);
    var newUrl := baseUrl + [HASH] + flexAppUrl;
    if location != newUrl && location + [HASH] != newUrl then Some(Entry(baseUrl, newUrl, flexAppUrl)) else None
  }

  function Step(home: Str, s: Session, event: Event): (r: Session)
    requires s.timeline.Valid()
    ensures r.timeline.Valid()
  {
    match event
    case UrlSet(flexAppUrl) =>
      var e := NewEntry(s.location, flexAppUrl);
      if e.None? then s
      else Session(s.timeline.Visit(e.value), e.value.newUrl, WithHash(s.location, flexAppUrl))
    case Navigated(href) =>
      if href == s.currentHref then s.(location := href)
      else Session(s.timeline.Poll(GetHash(href), AtHome(home, href)), href, href)
    case Added(e) => s.(timeline := s.timeline.Visit(e), location := WithHash(s.location, e.flexAppUrl))
    case BackButton => s.(timeline := s.timeline.Back())
    case ForwardButton => s.(timeline := s.timeline.Forward())
    case ArbitraryUrl => s.(timeline := s.timeline.Truncate())
  }

  function Run(home: Str, s: Session, events: seq<Event>): (r: Session)
    requires s.timeline.Valid()
    ensures r.timeline.Valid()
  {
    if events == [] then s else Step(home, Run(home, s, events[..|events| - 1]), events[|events| - 1])
  }

  function Fresh(home: Str): Session {
    var hash := LocationHash(home);
    Session(Timeline(Entry(home, home + [HASH] + hash, hash), [], 0), home, home)
  }

  function Hashes(entries: seq<Entry>): (hs: seq<Str>)
    ensures |hs| == |entries| && forall k :: 0 <= k < |hs| ==> hs[k] == entries[k].flexAppUrl
  {
    seq(|entries|, k requires 0 <= k < |entries| => entries[k].flexAppUrl)
  }

  /** The browser went forward to the next entry: the poll follows exactly when the location is not
      the known one, the previous entry does not carry the same hash, and the page is not on the
      first entry with the initial page's location ahead. */
  lemma ForwardIsFollowed(home: Str, s: Session, href: Str)
    requires s.timeline.Valid() && s.timeline.NextIs(GetHash(href))
    ensures Step(home, s, Navigated(href)).timeline == s.timeline.Forward() <==>
              && href != s.currentHref && !s.timeline.PreviousIs(GetHash(href))
              && !(s.timeline.cursor == 1 && AtHome(home, href))
  {
  }

  /** The browser went back, to the entry before or from the first entry to the initial page: the
      poll follows exactly when the location is not the known one and the next entry, or the one
      just left, does not carry the same hash. */
  lemma BackIsFollowed(home: Str, s: Session, href: Str)
    requires s.timeline.Valid()
    requires s.timeline.PreviousIs(GetHash(href)) || (s.timeline.cursor == 1 && AtHome(home, href))
    ensures Step(home, s, Navigated(href)).timeline == s.timeline.Back() <==>
              && href != s.currentHref
              && if s.timeline.cursor == 1 then s.timeline.Current().flexAppUrl != GetHash(href)
                 else !s.timeline.NextIs(GetHash(href))
  {
  }

  lemma HashOf(baseUrl: Str, hash: Str)
    requires HASH !in baseUrl
    ensures var href := baseUrl + [HASH] + hash; GetHash(href) == hash && BaseUrl(href) == baseUrl
    ensures BaseUrl(baseUrl) == baseUrl && GetHash(baseUrl) == []
  {
    var href := baseUrl + [HASH] + hash;
    assert href[|baseUrl|] == HASH;
    FindIs(href, HASH, 0, |baseUrl|);
    FindIs(baseUrl, HASH, 0, |baseUrl|);
  }

  /** The fragment as `location.hash` shows it, and the location after it is set: a '#' in front is
      shown but not part of the fragment. */
  lemma FragmentOf(baseUrl: Str, hash: Str)
    requires 35 !in baseUrl
    ensures LocationHash(baseUrl) == [] && LocationHash(baseUrl + [35]) == []
    ensures hash != [] ==> LocationHash(baseUrl + [35] + hash) == [35] + hash
    ensures WithHash(baseUrl, [35] + hash) == baseUrl + [35] + hash
    ensures hash == [] || hash[0] != 35 ==> WithHash(baseUrl, hash) == baseUrl + [35] + hash
    ensures forall other: Str :: WithHash(baseUrl + [35] + other, hash) == WithHash(baseUrl, hash)
  {
    HashOf(baseUrl, hash);
    HashOf(baseUrl, []);
    assert baseUrl + [35] + [] == baseUrl + [35];
    assert ([35] + hash)[1..] == hash;
    forall other: Str ensures WithHash(baseUrl + [35] + other, hash) == WithHash(baseUrl, hash) {
      HashOf(baseUrl, other);
    }
  }

  lemma BaseHasNoHash(href: Str)
    ensures HASH !in BaseUrl(href)
  {
    FindIsFirst(href, HASH, 0);
  }

  lemma SameTail(a: Str, b: Str, c: Str)
    ensures a + b == a + c <==> b == c
  {
    assert (a + b)[|a|..] == b && (a + c)[|a|..] == c;
  }

  /** Where the location has a fragment, setting a URL adds an entry exactly when the URL is neither
      that fragment nor that fragment and a '#'; otherwise nothing happens. */
  lemma UrlSetAdds(home: Str, s: Session, baseUrl: Str, hash: Str, url: Str)
    requires s.timeline.Valid() && 35 !in baseUrl && s.location == baseUrl + [35] + hash
    ensures var r := Step(home, s, UrlSet(url));
            if url != hash && url != hash + [35] then
              && r.timeline == s.timeline.Visit(Entry(baseUrl, baseUrl + [35] + url, url))
              && r.timeline.cursor == s.timeline.cursor + 1 && r.timeline.Current().flexAppUrl == url
              && r.currentHref == baseUrl + [35] + url
            else r == s
  {
    HashOf(baseUrl, hash);
    SameTail(baseUrl + [35], hash, url);
    SameTail(baseUrl + [35], hash + [35], url);
    ConcatAssociates(baseUrl + [35], hash, [35]);
  }

  /** Where it has none, exactly when the URL is not empty. */
  lemma FirstUrlSetAdds(home: Str, s: Session, url: Str)
    requires s.timeline.Valid() && 35 !in s.location
    ensures var r := Step(home, s, UrlSet(url));
            if url != [] then
              && r.timeline == s.timeline.Visit(Entry(s.location, s.location + [35] + url, url))
              && r.timeline.cursor == s.timeline.cursor + 1 && r.timeline.Current().flexAppUrl == url
              && r.currentHref == s.location + [35] + url
            else r == s
  {
    HashOf(s.location, url);
    SameTail(s.location + [35], [], url);
    assert |s.location + [35] + url| > |s.location|;
    assert s.location + [35] + [] == s.location + [35];
  }

  /** Setting a URL that is not where the browser is makes it the current entry; the manager knows
      the new location, and its hash, exactly when the URL does not start with '#'. */
  lemma UrlSetIsKnown(home: Str, s: Session, flexAppUrl: Str)
    requires s.timeline.Valid() && NewEntry(s.location, flexAppUrl).Some?
    ensures var r := Step(home, s, UrlSet(flexAppUrl));
            && r.timeline.Current().flexAppUrl == flexAppUrl
            && (r.currentHref == r.location <==> flexAppUrl == [] || flexAppUrl[0] != HASH)
            && (GetHash(r.location) == flexAppUrl <==> flexAppUrl == [] || flexAppUrl[0] != HASH)
  {
    var baseUrl := BaseUrl(s.location);
    BaseHasNoHash(s.location);
    HashOf(baseUrl, flexAppUrl);
    if flexAppUrl != [] && flexAppUrl[0] == HASH {
      HashOf(baseUrl, flexAppUrl[1..]);
      assert |baseUrl + [HASH] + flexAppUrl| != |baseUrl + [HASH] + flexAppUrl[1..]|;
    }
  }

  /** The page's own events, with URLs that do not start with '#'. */
  predicate PageEvents(events: seq<Event>) {
    forall k :: 0 <= k < |events| ==>
      match events[k]
      case UrlSet(url) => url == [] || url[0] != HASH
      case Navigated(_) => true
      case _ => false
  }

  /** Over every run of the page, the manager knows the location after each event. */
  lemma {:induction false} LocationIsKnown(home: Str, events: seq<Event>)
    requires PageEvents(events)
    ensures Run(home, Fresh(home), events).currentHref == Run(home, Fresh(home), events).location
  {
    if events != [] {
      var n := |events| - 1;
      LocationIsKnown(home, events[..n]);
      var s := Run(home, Fresh(home), events[..n]);
      if events[n].UrlSet? && NewEntry(s.location, events[n].flexAppUrl).Some? {
        UrlSetIsKnown(home, s, events[n].flexAppUrl);
      }
    }
  }

  lemma RunMore(home: Str, s: Session, events: seq<Event>, event: Event)
    requires s.timeline.Valid()
    ensures Run(home, s, events + [event]) == Step(home, Run(home, s, events), event)
  {
    assert (events + [event])[..|events|] == events;
  }

  lemma RunOneMore(home: Str, s: Session, events: seq<Event>, n: nat)
    requires s.timeline.Valid() && n < |events|
    ensures Run(home, s, events[..n + 1]) == Step(home, Run(home, s, events[..n]), events[n])
  {
    assert events[..n + 1][..n] == events[..n];
  }

  lemma VisitTwo(home: Str, a: Str)
    requires HASH !in home && a != [] && a[0] != HASH
    ensures var s := Run(home, Fresh(home), [UrlSet(a), UrlSet([])]);
            && s.location == s.currentHref == home + [HASH] + []
            && s.timeline.cursor == 2 && Hashes(s.timeline.entries) == [a, []]
  {
    HashOf(home, a);
    HashOf(home, []);
    var s0 := Fresh(home);
    var s1 := Step(home, s0, UrlSet(a));
    assert s0.timeline.initial.flexAppUrl == [];
    assert |home + [HASH] + a| > |home| + 1;
    assert s1.location == s1.currentHref == home + [HASH] + a && s1.timeline.cursor == 1;
    RunMore(home, s0, [], UrlSet(a));
    RunMore(home, s0, [UrlSet(a)], UrlSet([]));
    assert [] + [UrlSet(a)] == [UrlSet(a)] && [UrlSet(a)] + [UrlSet([])] == [UrlSet(a), UrlSet([])];
  }

  /** From a page without a fragment the application sets `a`, then the empty URL; the user presses
      back, which the stacks follow, then forward: the poll goes back to the initial page instead. */
  lemma ForwardGoesBack(home: Str, a: Str)
    requires HASH !in home && a != [] && a[0] != HASH
    ensures var there := [UrlSet(a), UrlSet([])];
            var back := there + [Navigated(home + [HASH] + a)];
            var forward := back + [Navigated(home + [HASH] + [])];
            && Run(home, Fresh(home), back).timeline == Run(home, Fresh(home), there).timeline.Back()
            && Run(home, Fresh(home), back).timeline.cursor == 1
            && Run(home, Fresh(home), forward).timeline.cursor == 0
  {
    var there := [UrlSet(a), UrlSet([])];
    var backHref, forwardHref := home + [HASH] + a, home + [HASH] + [];
    VisitTwo(home, a);
    HashOf(home, a);
    HashOf(home, []);
    RunMore(home, Fresh(home), there, Navigated(backHref));
    RunMore(home, Fresh(home), there + [Navigated(backHref)], Navigated(forwardHref));
    var s := Run(home, Fresh(home), there);
    assert |backHref| != |forwardHref|;
    assert s.timeline.entries[0].flexAppUrl == Hashes(s.timeline.entries)[0] == a;
    assert s.timeline.PreviousIs(a) && !s.timeline.NextIs(a);
  }

  /** The entry an event adds. */
  function AddedBy(s: Session, event: Event): Option<Entry> {
    match event
    case UrlSet(flexAppUrl) => NewEntry(s.location, flexAppUrl)
    case Added(e) => Some(e)
    case _ => None
  }

  /** The hashes of the entries a run adds, in order. */
  function VisitedHashes(home: Str, events: seq<Event>): seq<Str> {
    if events == [] then []
    else
      var n := |events| - 1;
      var e := AddedBy(Run(home, Fresh(home), events[..n]), events[n]);
      VisitedHashes(home, events[..n]) + (if e.Some? then [e.value.flexAppUrl] else [])
  }

  predicate Subsequence(a: seq<Str>, b: seq<Str>) {
    a == [] || (b != [] && (
      (a[|a| - 1] == b[|b| - 1] && Subsequence(a[..|a| - 1], b[..|b| - 1]))
      || Subsequence(a, b[..|b| - 1])))
  }

  lemma {:induction false} SubsequencePrefix(a: seq<Str>, b: seq<Str>, n: nat)
    requires n <= |a| && Subsequence(a, b)
    ensures Subsequence(a[..n], b)
    decreases |b|
  {
    if n < |a| {
      if a[|a| - 1] == b[|b| - 1] && Subsequence(a[..|a| - 1], b[..|b| - 1]) {
        assert a[..|a| - 1][..n] == a[..n];
        SubsequencePrefix(a[..|a| - 1], b[..|b| - 1], n);
      } else {
        SubsequencePrefix(a, b[..|b| - 1], n);
      }
    } else {
      assert a[..n] == a;
    }
  }

  /** Short of a visit, a step keeps the entries or those up to the cursor. */
  lemma StepKeepsOrCuts(home: Str, s: Session, event: Event)
    requires s.timeline.Valid() && AddedBy(s, event).None?
    ensures var t, r := s.timeline, Step(home, s, event).timeline;
            r.entries == t.entries || r.entries == t.entries[..t.cursor]
  {
    if event.Navigated? { PollMovesOneStep(s.timeline, GetHash(event.href), AtHome(home, event.href)); }
  }

  lemma VisitHashes(t: Timeline, e: Entry)
    requires t.Valid()
    ensures Hashes(t.Visit(e).entries) == Hashes(t.entries)[..t.cursor] + [e.flexAppUrl]
  {
  }

  lemma SubsequenceMore(a: seq<Str>, b: seq<Str>, h: Str)
    requires Subsequence(a, b)
    ensures Subsequence(a + [h], b + [h])
  {
    assert (a + [h])[..|a|] == a && (b + [h])[..|b|] == b;
  }

  /** A step's entries are the old ones, perhaps cut at the cursor, with the added one. */
  lemma StepHashes(home: Str, s: Session, event: Event, hs: seq<Str>)
    requires s.timeline.Valid() && Subsequence(Hashes(s.timeline.entries), hs)
    ensures var e := AddedBy(s, event);
            Subsequence(Hashes(Step(home, s, event).timeline.entries),
                        hs + (if e.Some? then [e.value.flexAppUrl] else []))
  {
    var t, old_ := s.timeline, Hashes(s.timeline.entries);
    var e := AddedBy(s, event);
    SubsequencePrefix(old_, hs, t.cursor);
    if e.Some? {
      VisitHashes(t, e.value);
      SubsequenceMore(old_[..t.cursor], hs, e.value.flexAppUrl);
    } else {
      StepKeepsOrCuts(home, s, event);
      assert Hashes(t.entries[..t.cursor]) == old_[..t.cursor];
      assert hs + [] == hs;
    }
  }

  /** Over every run of a fresh page the timeline holds visited hashes in visiting order. */
  lemma {:induction false} TimelineIsVisited(home: Str, events: seq<Event>)
    ensures Subsequence(Hashes(Run(home, Fresh(home), events).timeline.entries), VisitedHashes(home, events))
  {
    if events != [] {
      var n := |events| - 1;
      TimelineIsVisited(home, events[..n]);
      StepHashes(home, Run(home, Fresh(home), events[..n]), events[n], VisitedHashes(home, events[..n]));
    }
  }

  // ---------- The browser's own history ----------

  /** The pages of the browser's session history and the one it shows. */
  datatype Browser = Browser(pages: seq<Str>, pos: nat) {
    /** It starts at the page's first location, and pages next to each other have different hashes. */
    predicate Valid(home: Str) {
      && pos < |pages| && pages[0] == home
      && forall k {:trigger pages[k]} :: 0 < k < |pages| ==> GetHash(pages[k - 1]) != GetHash(pages[k])
    }

    function Location(): Str
      requires pos < |pages|
    {
      pages[pos]
    }
  }

  /** What the application and the user do. */
  datatype Move = SetUrl(flexAppUrl: Str) | GoBack | GoForward

  predicate PlainUrl(url: Str) {
    url == [] || url[0] != HASH
  }

  predicate PlainMove(move: Move) {
    move.SetUrl? ==> PlainUrl(move.flexAppUrl)
  }

  /** The browser's side of a move: setting the fragment opens a page and forgets those ahead. */
  function BrowserStep(b: Browser, move: Move): (r: Browser)
    requires b.pos < |b.pages|
    ensures r.pos < |r.pages|
  {
    match move
    case SetUrl(url) =>
      if NewEntry(b.Location(), url).None? then b
      else Browser(b.pages[..b.pos + 1] + [WithHash(b.Location(), url)], b.pos + 1)
    case GoBack => if b.pos == 0 then b else b.(pos := b.pos - 1)
    case GoForward => if b.pos + 1 == |b.pages| then b else b.(pos := b.pos + 1)
  }

  /** The browser opens a page under the same conditions. */
  lemma BrowserOpens(b: Browser, baseUrl: Str, hash: Str, url: Str)
    requires b.pos < |b.pages| && 35 !in baseUrl && PlainUrl(url)
    ensures b.Location() == baseUrl + [35] + hash ==>
              if url != hash && url != hash + [35] then
                BrowserStep(b, SetUrl(url)) == Browser(b.pages[..b.pos + 1] + [baseUrl + [35] + url], b.pos + 1)
              else BrowserStep(b, SetUrl(url)) == b
    ensures b.Location() == baseUrl ==>
              if url != [] then
                BrowserStep(b, SetUrl(url)) == Browser(b.pages[..b.pos + 1] + [baseUrl + [35] + url], b.pos + 1)
              else BrowserStep(b, SetUrl(url)) == b
  {
    var s := Session(Timeline(Entry([], [], []), [], 0), b.Location(), b.Location());
    if b.Location() == baseUrl + [35] + hash {
      UrlSetAdds([], s, baseUrl, hash, url);
      FragmentOf(baseUrl, url);
    } else if b.Location() == baseUrl {
      FirstUrlSetAdds([], s, url);
      FragmentOf(baseUrl, url);
    }
  }

  /** The page's side: the event that the move is for it. */
  function EventOf(b: Browser, move: Move): Event
    requires b.pos < |b.pages|
  {
    match move
    case SetUrl(url) => UrlSet(url)
    case _ => Navigated(BrowserStep(b, move).Location())
  }

  /** The manager knows where the browser is, and its timeline is the browser's history. */
  predicate InSync(s: Session, b: Browser)
    requires b.pos < |b.pages|
  {
    && s.timeline.Valid()
    && s.location == s.currentHref == b.Location()
    && s.timeline.cursor == b.pos && |b.pages| == |s.timeline.entries| + 1
    && forall k :: 0 <= k < |s.timeline.entries| ==> s.timeline.entries[k].flexAppUrl == GetHash(b.pages[k + 1])
  }

  /** May the poll after this move follow it?  Only moves between pages other than the initial one
      can be missed, where the pages on both sides of the browser have the same hash. */
  predicate SafeMove(b: Browser, move: Move)
    requires b.pos < |b.pages|
  {
    var next := BrowserStep(b, move).pos;
    move.SetUrl? || next == b.pos || b.pos == 0 || next == 0
    || (b.pos + 1 < |b.pages| ==> GetHash(b.pages[b.pos - 1]) != GetHash(b.pages[b.pos + 1]))
  }

  /** A URL that adds an entry is a new hash, and the browser goes where the entry says. */
  lemma NewEntryMoves(location: Str, url: Str)
    requires NewEntry(location, url).Some? && PlainUrl(url)
    ensures WithHash(location, url) == NewEntry(location, url).value.newUrl
    ensures GetHash(WithHash(location, url)) == url != GetHash(location)
  {
    var i := Find(location, HASH, 0);
    FindIsFirst(location, HASH, 0);
    BaseHasNoHash(location);
    HashOf(BaseUrl(location), url);
    if i == |location| {
      assert BaseUrl(location) == location;
    } else {
      assert location == location[..i] + [HASH] + location[i + 1..];
    }
  }

  lemma OpenedIsValid(home: Str, b: Browser, page: Str)
    requires b.Valid(home) && GetHash(b.Location()) != GetHash(page)
    ensures Browser(b.pages[..b.pos + 1] + [page], b.pos + 1).Valid(home)
  {
    var pages := b.pages[..b.pos + 1] + [page];
    assert pages[0] == home && pages[b.pos] == b.Location();
    forall k | 0 < k < |pages| ensures GetHash(pages[k - 1]) != GetHash(pages[k]) {
      if k <= b.pos {
        assert pages[k - 1] == b.pages[k - 1] && pages[k] == b.pages[k];
        assert GetHash(b.pages[k - 1]) != GetHash(b.pages[k]);
      } else {
        assert pages[k - 1] == b.Location() && pages[k] == page;
      }
    }
  }

  lemma VisitSyncs(t: Timeline, e: Entry, b: Browser, page: Str)
    requires t.Valid() && b.pos < |b.pages| && t.cursor == b.pos && |b.pages| == |t.entries| + 1
    requires forall k :: 0 <= k < |t.entries| ==> t.entries[k].flexAppUrl == GetHash(b.pages[k + 1])
    requires e.flexAppUrl == GetHash(page)
    ensures var v, pages := t.Visit(e), b.pages[..b.pos + 1] + [page];
            && v.cursor == b.pos + 1 && |pages| == |v.entries| + 1
            && forall k :: 0 <= k < |v.entries| ==> v.entries[k].flexAppUrl == GetHash(pages[k + 1])
  {
    var v, pages := t.Visit(e), b.pages[..b.pos + 1] + [page];
    VisitHashes(t, e);
    assert |Hashes(v.entries)| == t.cursor + 1;
    forall k | 0 <= k < |v.entries| ensures v.entries[k].flexAppUrl == GetHash(pages[k + 1]) {
      assert v.entries[k].flexAppUrl == Hashes(v.entries)[k];
      if k < t.cursor { assert Hashes(v.entries)[k] == Hashes(t.entries)[k] == t.entries[k].flexAppUrl; }
    }
  }

  lemma SetUrlKeepsSync(home: Str, s: Session, b: Browser, url: Str)
    requires b.Valid(home) && InSync(s, b) && PlainUrl(url)
    ensures BrowserStep(b, SetUrl(url)).Valid(home)
    ensures InSync(Step(home, s, UrlSet(url)), BrowserStep(b, SetUrl(url)))
  {
    if NewEntry(s.location, url).Some? {
      NewEntryMoves(s.location, url);
      OpenedIsValid(home, b, WithHash(s.location, url));
      VisitSyncs(s.timeline, NewEntry(s.location, url).value, b, WithHash(s.location, url));
    }
  }

  lemma BackSyncsIff(home: Str, s: Session, b: Browser)
    requires b.Valid(home) && InSync(s, b) && b.pos > 0
    ensures var r := b.(pos := b.pos - 1);
            InSync(Step(home, s, Navigated(r.Location())), r) <==> SafeMove(b, GoBack)
  {
    BackIsFollowed(home, s, b.pages[b.pos - 1]);
    assert GetHash(b.pages[b.pos - 1]) != GetHash(b.pages[b.pos]);
  }

  lemma ForwardSyncsIff(home: Str, s: Session, b: Browser)
    requires b.Valid(home) && InSync(s, b) && b.pos + 1 < |b.pages|
    ensures var r := b.(pos := b.pos + 1);
            InSync(Step(home, s, Navigated(r.Location())), r) <==> SafeMove(b, GoForward)
  {
    ForwardIsFollowed(home, s, b.pages[b.pos + 1]);
    AtHomeIff(home, b.pages[b.pos + 1]);
    assert GetHash(b.pages[b.pos]) != GetHash(b.pages[b.pos + 1]);
  }

  lemma StepSyncsIff(home: Str, s: Session, b: Browser, move: Move)
    requires b.Valid(home) && InSync(s, b) && PlainMove(move)
    ensures BrowserStep(b, move).Valid(home)
    ensures InSync(Step(home, s, EventOf(b, move)), BrowserStep(b, move)) <==> SafeMove(b, move)
  {
    match move
    case SetUrl(url) => SetUrlKeepsSync(home, s, b, url);
    case GoBack =>
      if b.pos > 0 { BackSyncsIff(home, s, b); }
    case GoForward =>
      if b.pos + 1 < |b.pages| { ForwardSyncsIff(home, s, b); }
  }

  /** The page and the browser after the moves, on a fresh page. */
  function Roam(home: Str, moves: seq<Move>): (r: (Session, Browser))
    ensures r.0.timeline.Valid() && r.1.pos < |r.1.pages|
  {
    if moves == [] then (Fresh(home), Browser([home], 0))
    else
      var (s, b) := Roam(home, moves[..|moves| - 1]);
      var move := moves[|moves| - 1];
      (Step(home, s, EventOf(b, move)), BrowserStep(b, move))
  }

  predicate AlwaysInSync(home: Str, moves: seq<Move>) {
    InSync(Roam(home, moves).0, Roam(home, moves).1)
    && (moves != [] ==> AlwaysInSync(home, moves[..|moves| - 1]))
  }

  /** Every move is safe for the browser's history at that time. */
  predicate AlwaysSafe(home: Str, moves: seq<Move>) {
    moves != [] ==>
      var n := |moves| - 1;
      AlwaysSafe(home, moves[..n]) && SafeMove(Roam(home, moves[..n]).1, moves[n])
  }

  /** Over every run of moves the stacks are the browser's own history throughout if and only if no
      move is one that the poll misses, which the browser's pages alone decide. */
  lemma {:induction false} InSyncIffSafe(home: Str, moves: seq<Move>)
    requires forall k :: 0 <= k < |moves| ==> PlainMove(moves[k])
    ensures AlwaysInSync(home, moves) <==> AlwaysSafe(home, moves)
    ensures AlwaysInSync(home, moves) ==> Roam(home, moves).1.Valid(home)
  {
    if moves != [] {
      var n := |moves| - 1;
      InSyncIffSafe(home, moves[..n]);
      if AlwaysInSync(home, moves[..n]) {
        var (s, b) := Roam(home, moves[..n]);
        StepSyncsIff(home, s, b, moves[n]);
      }
    }
  }

  /** The run of the page alone is a run of its events. */
  lemma {:induction false} RoamIsRun(home: Str, moves: seq<Move>) returns (events: seq<Event>)
    ensures Run(home, Fresh(home), events) == Roam(home, moves).0 && |events| == |moves|
  {
    if moves == [] {
      events := [];
    } else {
      var n := |moves| - 1;
      var before := RoamIsRun(home, moves[..n]);
      var event := EventOf(Roam(home, moves[..n]).1, moves[n]);
      RunMore(home, Fresh(home), before, event);
      events := before + [event];
    }
  }

  /** Where pages two apart have different hashes every move is safe. */
  predicate Distinguishable(pages: seq<Str>) {
    forall k {:trigger pages[k]} :: 1 < k < |pages| ==> GetHash(pages[k - 2]) != GetHash(pages[k])
  }

  lemma {:induction false} DistinguishableIsSafe(home: Str, moves: seq<Move>)
    requires forall k :: 0 <= k < |moves| ==> Distinguishable(Roam(home, moves[..k]).1.pages)
    ensures AlwaysSafe(home, moves)
  {
    if moves != [] {
      var n := |moves| - 1;
      forall k | 0 <= k < n ensures Distinguishable(Roam(home, moves[..n][..k]).1.pages) {
        assert moves[..n][..k] == moves[..k];
      }
      DistinguishableIsSafe(home, moves[..n]);
      assert Distinguishable(Roam(home, moves[..n]).1.pages);
    }
  }

  // ---------- The two stacks ----------

  function Reversed<T>(s: seq<T>): (r: seq<T>)
    ensures |r| == |s| && forall k :: 0 <= k < |s| ==> r[k] == s[|s| - 1 - k]
  {
    seq(|s|, k requires 0 <= k < |s| => s[|s| - 1 - k])
  }

  class BrowserHistory {
    const initialHref: Str
    const initialHash: Str
    var location: Str
    var currentHref: Str
    var initialState: Entry
    var backStack: seq<Entry>
    var forwardStack: seq<Entry>

    constructor (href: Str)
      ensures Now() == Fresh(href) && initialHref == href && initialHash == LocationHash(href)
    {
      location, currentHref, initialHref, initialHash := href, href, href, LocationHash(href);
      initialState := Entry(href, href + [HASH] + LocationHash(href), LocationHash(href));
      backStack, forwardStack := [], [];
    }

    function View(): (t: Timeline)
      reads this
      ensures t.Valid()
    {
      Timeline(initialState, backStack + Reversed(forwardStack), |backStack|)
    }

    function Now(): Session
      reads this
    {
      Session(View(), currentHref, location)
    }

    /** The neighbours of the cursor are the tops of the stacks. */
    lemma Neighbours(hash: Str)
      ensures View().NextIs(hash) <==> |forwardStack| > 0 && forwardStack[|forwardStack| - 1].flexAppUrl == hash
      ensures View().PreviousIs(hash) <==> |backStack| >= 2 && backStack[|backStack| - 2].flexAppUrl == hash
      ensures forall k :: 0 <= k < |backStack| ==> View().entries[k] == backStack[k]
    {
    }

    method AddHistoryEntry(baseUrl: Str, newUrl: Str, flexAppUrl: Str)
      modifies this
      ensures View() == old(View()).Visit(Entry(baseUrl, newUrl, flexAppUrl))
      ensures location == WithHash(old(location), flexAppUrl) && currentHref == old(currentHref)
    {
      ghost var was := View();
      forwardStack := [];
      assert was.entries[..|backStack|] == backStack;
      if |backStack| == 0 && initialState.flexAppUrl == flexAppUrl {
        initialState := Entry(baseUrl, newUrl, flexAppUrl);
      } else if |backStack| > 0 && backStack[|backStack| - 1].flexAppUrl == flexAppUrl {
        backStack := backStack[|backStack| - 1 := Entry(baseUrl, newUrl, flexAppUrl)];
      }
      location := WithHash(location, flexAppUrl);
      backStack := backStack + [Entry(baseUrl, newUrl, flexAppUrl)];
    }

    method HandleBackButton()
      modifies `backStack, `forwardStack
      ensures View() == old(View()).Back()
      ensures old(backStack) != [] ==>
                backStack == old(backStack)[..old(|backStack|) - 1]
                  && forwardStack == old(forwardStack) + [old(backStack[|backStack| - 1])]
      ensures old(backStack) == [] ==> backStack == [] && forwardStack == old(forwardStack)
    {
      if |backStack| == 0 { return; }
      var current := backStack[|backStack| - 1];
      backStack := backStack[..|backStack| - 1];
      forwardStack := forwardStack + [current];
    }

    method HandleForwardButton()
      modifies `backStack, `forwardStack
      ensures View() == old(View()).Forward()
      ensures old(forwardStack) != [] ==>
                forwardStack == old(forwardStack)[..old(|forwardStack|) - 1]
                  && backStack == old(backStack) + [old(forwardStack[|forwardStack| - 1])]
      ensures old(forwardStack) == [] ==> backStack == old(backStack) && forwardStack == []
    {
      if |forwardStack| == 0 { return; }
      var last := forwardStack[|forwardStack| - 1];
      forwardStack := forwardStack[..|forwardStack| - 1];
      backStack := backStack + [last];
    }

    method HandleArbitraryUrl()
      modifies `forwardStack
      ensures View() == old(View()).Truncate() && forwardStack == []
    {
      ghost var was := View();
      forwardStack := [];
      assert was.entries[..|backStack|] == backStack;
    }

    method FireHandlers(atInitial: bool)
      modifies `backStack, `forwardStack
      ensures View() == PollBySteps(old(View()), GetHash(location), atInitial)
    {
      var bsl := |backStack|;
      ghost var hash := GetHash(location);
      Neighbours(hash);
      var back, forward := false, false;
      if atInitial && bsl == 1 {
        back := true;
        HandleBackButton();
      }
      Neighbours(hash);
      ghost var mid := View();
      if |forwardStack| > 0 {
        if forwardStack[|forwardStack| - 1].flexAppUrl == GetHash(location) {
          forward := true;
          HandleForwardButton();
        }
      }
      assert forward == mid.NextIs(hash);
      assert bsl >= 2 ==> backStack[bsl - 2] == old(backStack)[bsl - 2];
      if bsl >= 2 {
        if backStack[bsl - 2].flexAppUrl == GetHash(location) {
          back := true;
          HandleBackButton();
        }
      }
      if !back && !forward {
        HandleArbitraryUrl();
      }
    }

    /** The Firefox branch of the poll; its handlers can fire one after the other. */
    method CheckForUrlChange()
      modifies `backStack, `forwardStack, `currentHref
      ensures var atInitial := LocationHash(location) == initialHash || location == initialHref;
              View() == if old(currentHref) != location then old(View()).Poll(GetHash(location), atInitial)
                else old(View())
      ensures currentHref == location
    {
      if currentHref != location {
        var atInitial := LocationHash(location) == initialHash || location == initialHref;
        PollStepsAddUp(View(), GetHash(location), atInitial);
        FireHandlers(atInitial);
        currentHref := location;
      }
    }

    /** setBrowserURL: navigation asked for by the application. */
    method SetBrowserURL(flexAppUrl: Str)
      modifies this
      ensures Now() == Step(initialHref, old(Now()), UrlSet(flexAppUrl))
    {
      IndexOfUnit(location, HASH, 0);
      var pos := IndexOf(location, [HASH], 0);
      var baseUrl := if pos != -1 then location[..pos] else location;
      var newUrl := baseUrl + [HASH] + flexAppUrl;
      assert baseUrl == BaseUrl(location);
      if location != newUrl && location + [HASH] != newUrl {
        currentHref := newUrl;
        AddHistoryEntry(baseUrl, newUrl, flexAppUrl);
      }
    }

    /** One event, by the method it stands for. */
    method Handle(event: Event)
      requires initialHash == LocationHash(initialHref)
      modifies this
      ensures Now() == Step(initialHref, old(Now()), event)
    {
      match event
      case UrlSet(flexAppUrl) => SetBrowserURL(flexAppUrl);
      case Navigated(href) =>
        location := href;
        CheckForUrlChange();
      case Added(e) => AddHistoryEntry(e.baseUrl, e.newUrl, e.flexAppUrl);
      case BackButton => HandleBackButton();
      case ForwardButton => HandleForwardButton();
      case ArbitraryUrl => HandleArbitraryUrl();
    }

    /** The stacks refine the timeline over every sequence of events. */
    method Replay(events: seq<Event>)
      requires initialHash == LocationHash(initialHref)
      modifies this
      ensures Now() == Run(initialHref, old(Now()), events)
    {
      for i := 0 to |events|
        invariant Now() == Run(initialHref, old(Now()), events[..i])
      {
        RunOneMore(initialHref, old(Now()), events, i);
        Handle(events[i]);
      }
      assert events[..|events|] == events;
    }
  }
}
