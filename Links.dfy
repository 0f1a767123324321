/**
 * Link discovery on the listing page (`GameScraper.get_game_links`): the
 * XPath query that selects anchors, the per-anchor acceptance test, the scan
 * that collects `(text, href)` pairs while skipping anchors whose reads fail,
 * and the de-duplication and sort by text that follow it.
 *
 * The rendered document is an input: the anchors in document order, each
 * with its raw `href` attribute (what the XPath sees), whether it lies under
 * `nav[@class='sidebar']`, and what reading its `href` property and text
 * gives, or that the read raises.
 */
module Links {
  import opened Wrappers
  import opened Text
  import opened Sequences

  const Scheme: string := "https:"
  const Host: string := "www.onlinegames.io"

  /** The listing page `https://www.onlinegames.io/`, and the one URL the XPath query rules out by equality. */
  const Home: string := Scheme + "//" + Host + "/"

  /** The substring the XPath query demands of the raw `href` attribute. */
  const SiteMarker: string := "onlinegames.io/"

  /** The XPath query's own excluded segment (case-sensitive). */
  const TopicSegment: string := "/t/"

  /** Path segments that disqualify a link, tested against the lower-cased href. */
  const ExcludedSegments: seq<string> := ["/t/", "/tag/", "/about/", "/contact/", "/privacy-policy/"]

  /** The number of parts a game page's URL splits into once stripped of slashes. */
  const GamePathParts: nat := 4

  datatype GameLink = GameLink(text: string, href: string)

  /** Reading an element's `href` property and its text; `Stale` when either read raises. */
  datatype AnchorRead = Stale | Read(href: Option<string>, text: string)

  datatype Anchor = Anchor(hrefAttr: Option<string>, inSidebar: bool, read: AnchorRead)

  /** The outcome of `find_elements`: it raises, or it returns the anchors it selected from. */
  datatype Query = QueryFails | Found(anchors: seq<Anchor>)

  /** The listing page as the browser delivers it: navigation raises, or the page renders. */
  datatype ListingPage = NavigationFails | Loaded(query: Query)

  /**
   * The XPath predicate of the query: an `a` element whose `href` attribute
   * contains the site marker, that is not inside the sidebar navigation, whose
   * `href` does not contain `/t/` and is not the home URL itself. An anchor
   * without an `href` attribute never matches.
   */
  predicate XPathSelects(a: Anchor) {
    && a.hrefAttr.Some?
    && Contains(a.hrefAttr.value, SiteMarker)
    && !a.inSidebar
    && !Contains(a.hrefAttr.value, TopicSegment)
    && a.hrefAttr.value != Home
  }

  /** The elements `find_elements` returns: the selected anchors, in document order. */
  function Selected(anchors: seq<Anchor>): seq<Anchor> {
    Filter(anchors, XPathSelects)
  }

  /** `any(x in href.lower() for x in [...])`. */
  predicate IsExcluded(href: string) {
    exists k :: 0 <= k < |ExcludedSegments| && Contains(Lower(href), ExcludedSegments[k])
  }

  /** `len(href.strip('/').split('/')) == 4`. */
  predicate HasGameShape(href: string) {
    |Split(Strip(href, {'/'}), '/')| == GamePathParts
  }

  /**
   * The acceptance test the scan applies to an element's `href` and stripped
   * text: both non-empty, the href on the site, free of the excluded segments
   * and shaped like a single game page.
   */
  predicate Accepts(href: string, text: string) {
    && href != ""
    && text != ""
    && StartsWith(href, Home)
    && !IsExcluded(href)
    && HasGameShape(href)
  }

  /** What one element contributes to the scan: its link, or nothing. */
  function CandidateOf(a: Anchor): Option<GameLink> {
    match a.read
    case Stale => None
    case Read(href, text) =>
      var t := Strip(text, Whitespace);
      if href.Some? && Accepts(href.value, t) then Some(GameLink(t, href.value)) else None
  }

  /** The list the scan builds from the selected elements, before de-duplication. */
  function Candidates(elems: seq<Anchor>): seq<GameLink> {
    Collect(elems, CandidateOf)
  }

  /** The scan loop over the selected elements. */
  method ScanAnchors(elems: seq<Anchor>) returns (games: seq<GameLink>)
    ensures games == Candidates(elems)
  {
    games := [];
    for i := 0 to |elems|
      invariant games == Candidates(elems[..i])
    {
      assert elems[..i + 1][..i] == elems[..i];
      match elems[i].read
      case Stale =>
        // reading this element raised: it is skipped and the scan goes on
      case Read(href, text) =>
        var t := Strip(text, Whitespace);
        if href.Some? && href.value != "" && t != "" && StartsWith(href.value, Home) && !IsExcluded(href.value) {
          if HasGameShape(href.value) {
            games := games + [GameLink(t, href.value)];
          }
        }
    }
    assert elems[..|elems|] == elems;
  }

  /** Every link the scan collects passes the acceptance test, with the text as stripped. */
  lemma CandidatesAccepted(elems: seq<Anchor>)
    ensures forall l :: l in Candidates(elems) ==> Accepts(l.href, l.text)
  {
    forall l | l in Candidates(elems) ensures Accepts(l.href, l.text) {
      CollectExact(elems, CandidateOf, l);
    }
  }

  /** An element whose read raises is skipped alone: the elements around it are scanned as usual. */
  lemma StaleSkipped(xs: seq<Anchor>, a: Anchor, ys: seq<Anchor>)
    requires a.read.Stale?
    ensures Candidates(xs + [a] + ys) == Candidates(xs) + Candidates(ys)
  {
    CollectSkips(xs, a, ys, CandidateOf);
  }

  /** A link is found on the page exactly when some anchor the XPath selects yields it. */
  lemma DiscoveredExactly(anchors: seq<Anchor>, l: GameLink)
    ensures l in Candidates(Selected(anchors))
        <==> exists a :: a in anchors && XPathSelects(a) && CandidateOf(a) == Some(l)
  {
    var elems := Selected(anchors);
    CollectExact(elems, CandidateOf, l);
    if a :| a in anchors && XPathSelects(a) && CandidateOf(a) == Some(l) {
      assert a in elems;
      var i :| 0 <= i < |elems| && elems[i] == a;
    }
  }

  /** Non-decreasing by text: the order `games.sort(key=lambda x: x[0])` leaves. */
  predicate SortedByText(s: seq<GameLink>) {
    forall k :: 0 < k < |s| ==> TextLe(s[k - 1].text, s[k].text)
  }

  /** `list(set(games))`: each pair once, the same pairs as before. */
  method Dedup(games: seq<GameLink>) returns (unique: seq<GameLink>)
    ensures Distinct(unique)
    ensures forall g :: g in unique <==> g in games
  {
    unique := [];
    for i := 0 to |games|
      invariant Distinct(unique)
      invariant forall g :: g in unique <==> g in games[..i]
    {
      assert games[..i + 1] == games[..i] + [games[i]];
      if games[i] !in unique {
        unique := unique + [games[i]];
      }
    }
    assert games[..|games|] == games;
  }

  /** `games.sort(key=lambda x: x[0])`: a stable in-place sort by text, inserting one element at a time. */
  method SortByText(a: array<GameLink>)
    modifies a
    ensures SortedByText(a[..])
    ensures multiset(a[..]) == multiset(old(a[..]))
  {
    var i := 0;
    while i < a.Length
      invariant 0 <= i <= a.Length
      invariant SortedByText(a[..i])
      invariant multiset(a[..]) == multiset(old(a[..]))
    {
      InsertIntoSorted(a, i);
      i := i + 1;
    }
    assert a[..] == a[..a.Length];
  }

  /** Moves `a[i]` left past every element with a greater text, so that `a[..i + 1]` is sorted. */
  method InsertIntoSorted(a: array<GameLink>, i: nat)
    requires i < a.Length && SortedByText(a[..i])
    modifies a
    ensures SortedByText(a[..i + 1])
    ensures multiset(a[..]) == multiset(old(a[..]))
    ensures a[i + 1..] == old(a[i + 1..])
  {
    var j := i;
    while j > 0 && TextLt(a[j].text, a[j - 1].text)
      invariant 0 <= j <= i
      invariant forall k :: i < k < a.Length ==> a[k] == old(a[k])
      invariant forall k :: 0 < k <= i && k != j ==> TextLe(a[k - 1].text, a[k].text)
      invariant 0 < j < i ==> TextLe(a[j - 1].text, a[j + 1].text)
      invariant multiset(a[..]) == multiset(old(a[..]))
    {
      TextLeTotal(a[j - 1].text, a[j].text);
      Swap(a, j - 1, j);
      j := j - 1;
    }
  }

  method Swap(a: array<GameLink>, i: nat, j: nat)
    requires i < j < a.Length
    modifies a
    ensures a[i] == old(a[j]) && a[j] == old(a[i])
    ensures forall k :: 0 <= k < a.Length && k != i && k != j ==> a[k] == old(a[k])
    ensures multiset(a[..]) == multiset(old(a[..]))
  {
    a[i], a[j] := a[j], a[i];
  }

  /**
   * What `get_game_links` may return once the listing page has loaded: the
   * empty list when the query raises; otherwise each qualifying link once,
   * sorted by text, and exactly the links of the anchors that the XPath
   * selects and the scan accepts.
   */
  ghost predicate Discovered(q: Query, links: seq<GameLink>) {
    && (q.QueryFails? ==> links == [])
    && SortedByText(links)
    && Distinct(links)
    && (q.Found? ==> forall l :: l in links <==>
          exists a :: a in q.anchors && XPathSelects(a) && CandidateOf(a) == Some(l))
  }

  /** Every link `get_game_links` returns passes the acceptance test, and its text is non-empty once stripped. */
  lemma DiscoveredAccepted(q: Query, links: seq<GameLink>)
    requires Discovered(q, links)
    ensures forall l :: l in links ==> Accepts(l.href, l.text)
  {
    forall l | l in links ensures Accepts(l.href, l.text) {
      var a :| a in q.anchors && XPathSelects(a) && CandidateOf(a) == Some(l);
    }
  }

  /**
   * The body of `get_game_links` after navigation: query, scan, de-duplicate,
   * sort. A failing query gives the empty list. Otherwise the result holds
   * each pair once, sorted by text, and holds exactly the links of the anchors
   * that the XPath selects and the scan accepts. The order among links with
   * equal text is left open, as Python's set iteration order leaves it.
   */
  method DiscoverLinks(q: Query) returns (links: seq<GameLink>)
    ensures Discovered(q, links)
  {
    if q.QueryFails? {
      return [];
    }
    var elems := Selected(q.anchors);
    var games := ScanAnchors(elems);
    var unique := Dedup(games);
    var a := new GameLink[|unique|](k requires 0 <= k < |unique| => unique[k]);
    assert a[..] == unique;
    SortByText(a);
    links := a[..];
    DistinctPermutation(unique, links);
    forall l ensures l in links <==> exists a :: a in q.anchors && XPathSelects(a) && CandidateOf(a) == Some(l) {
      assert l in links <==> l in multiset(unique);
      DiscoveredExactly(q.anchors, l);
    }
  }

  /**
   * Two lists sorted by text, without repeats, with the same links and no two
   * links sharing a text, are the same list: when texts are unique the result
   * of the discovery does not depend on the order the set yields.
   */
  lemma {:induction false} SortedUnique(s: seq<GameLink>, t: seq<GameLink>)
    requires SortedByText(s) && SortedByText(t) && Distinct(s) && Distinct(t)
    requires forall l :: l in s <==> l in t
    requires forall i, j :: 0 <= i < j < |s| ==> s[i].text != s[j].text
    ensures s == t
  {
    assert |t| > 0 ==> t[0] in s;
    if |s| > 0 {
      assert s[0] in t;
      assert t[0] in s;
      SortedFirstLeast(s, t[0]);
      SortedFirstLeast(t, s[0]);
      TextLeAntisym(s[0].text, t[0].text);
      var i :| 0 <= i < |s| && s[i] == t[0];
      assert i == 0;
      assert s == [s[0]] + s[1..] && t == [t[0]] + t[1..];
      TailsAgree(s, t);
      SortedUnique(s[1..], t[1..]);
    }
  }

  /** Two lists without repeats, with the same members and the same head, have tails with the same members. */
  lemma TailsAgree(s: seq<GameLink>, t: seq<GameLink>)
    requires |s| > 0 && |t| > 0 && s[0] == t[0] && Distinct(s) && Distinct(t)
    requires forall l :: l in s <==> l in t
    ensures forall l :: l in s[1..] <==> l in t[1..]
  {
    forall l ensures l in s[1..] <==> l in t[1..] {
      if l in s[1..] {
        var p :| 1 <= p < |s| && s[p] == l;
        assert l != t[0] && l in s;
        var q :| 0 <= q < |t| && t[q] == l;
        assert t[1..][q - 1] == l;
      }
      if l in t[1..] {
        var p :| 1 <= p < |t| && t[p] == l;
        assert l != s[0] && l in t;
        var q :| 0 <= q < |s| && s[q] == l;
        assert s[1..][q - 1] == l;
      }
    }
  }

  /** The first link of a text-sorted list has the least text. */
  lemma {:induction false} SortedFirstLeast(s: seq<GameLink>, l: GameLink)
    requires SortedByText(s) && l in s
    ensures TextLe(s[0].text, l.text)
  {
    var i :| 0 <= i < |s| && s[i] == l;
    if i > 0 {
      var init := s[..i];
      assert SortedByText(init);
      assert init[0] == s[0] && init[i - 1] == s[i - 1];
      SortedFirstLeast(init, s[i - 1]);
      assert TextLe(s[i - 1].text, s[i].text);
      TextLeTrans(s[0].text, s[i - 1].text, l.text);
    } else {
      TextLeRefl(l.text);
    }
  }

  /** `strip('/')` of the home URL followed by `rest`, where `rest` still has a character other than `/`. */
  lemma {:induction false} TrimRightKeepsPrefix(p: string, rest: string, cs: set<char>)
    requires TrimRight(rest, cs) != []
    ensures TrimRight(p + rest, cs) == p + TrimRight(rest, cs)
  {
    assert (p + rest)[..|p + rest| - 1] == p + rest[..|rest| - 1];
    if rest[|rest| - 1] in cs {
      TrimRightKeepsPrefix(p, rest[..|rest| - 1], cs);
    }
  }

  lemma {:induction false} TrimRightDropsSuffix(p: string, rest: string, cs: set<char>)
    requires forall k :: 0 <= k < |rest| ==> rest[k] in cs
    ensures TrimRight(p + rest, cs) == TrimRight(p, cs)
  {
    if |rest| > 0 {
      assert (p + rest)[..|p + rest| - 1] == p + rest[..|rest| - 1];
      TrimRightDropsSuffix(p, rest[..|rest| - 1], cs);
    } else {
      assert p + rest == p;
    }
  }

  lemma SiteHasNoSlash()
    ensures '/' !in Scheme && '/' !in Host
  {
  }

  /** A separator-free prefix followed by two separators splits into that prefix, an empty part and the parts of the rest. */
  lemma SplitDoubleSep(p: string, t: string, sep: char)
    requires sep !in p
    ensures Split(p + [sep] + [sep] + t, sep) == [p, ""] + Split(t, sep)
  {
    assert p + [sep] + [sep] + t == p + [sep] + ("" + [sep] + t);
    SplitPrefix(p, "" + [sep] + t, sep);
    SplitPrefix("", t, sep);
  }

  /** The home URL followed by `seg` splits into the three parts of the site and those of `seg`. */
  lemma SplitUnderHome(seg: string)
    ensures Split(Home + seg, '/') == [Scheme, "", Host] + Split(seg, '/')
  {
    SiteHasNoSlash();
    var tail := Host + ['/'] + seg;
    assert Home + seg == Scheme + ['/'] + ['/'] + tail;
    SplitDoubleSep(Scheme, tail, '/');
    SplitPrefix(Host, seg, '/');
  }

  /** The home URL without its final slash splits into three parts. */
  lemma SplitBareHome()
    ensures Split(Scheme + "//" + Host, '/') == [Scheme, "", Host]
  {
    SiteHasNoSlash();
    assert Scheme + "//" + Host == Scheme + ['/'] + ['/'] + Host;
    SplitDoubleSep(Scheme, Host, '/');
    SplitFree(Host, '/');
  }

  /** `strip('/')` of an href on the site keeps the site prefix unless nothing but slashes follows it. */
  lemma StripUnderHome(rest: string)
    ensures var seg := TrimRight(rest, {'/'});
            Strip(Home + rest, {'/'}) == if seg != [] then Home + seg else Scheme + "//" + Host
  {
    TrimLeftUnderHome(rest);
    if TrimRight(rest, {'/'}) != [] {
      TrimRightKeepsPrefix(Home, rest, {'/'});
    } else {
      TrimRightDropsSuffix(Home, rest, {'/'});
      TrimRightHome();
    }
  }

  lemma TrimLeftUnderHome(rest: string)
    ensures TrimLeft(Home + rest, {'/'}) == Home + rest
  {
    assert (Home + rest)[0] == 'h';
  }

  lemma TrimRightHome()
    ensures TrimRight(Home, {'/'}) == Scheme + "//" + Host
  {
    var bare := Scheme + "//" + Host;
    assert Home == bare + ['/'];
    assert Home[..|Home| - 1] == bare;
    assert bare[|bare| - 1] == 'o';
  }

  /**
   * What the four-parts test means for an href on the site: the path after
   * `https://www.onlinegames.io/`, with trailing slashes removed, is one
   * non-empty segment without a further `/`.
   */
  lemma GameShape(href: string)
    requires StartsWith(href, Home)
    ensures HasGameShape(href) <==>
              (var seg := TrimRight(href[|Home|..], {'/'}); seg != [] && '/' !in seg)
  {
    var rest := href[|Home|..];
    var seg := TrimRight(rest, {'/'});
    assert href == Home + rest;
    StripUnderHome(rest);
    if seg != [] {
      SplitUnderHome(seg);
      SplitCount(seg, '/');
    } else {
      SplitBareHome();
    }
  }

  /** The home URL itself never passes the acceptance test, whatever its text. */
  lemma HomeRejected(text: string)
    ensures !Accepts(Home, text)
  {
    GameShape(Home);
    assert Home[|Home|..] == [];
  }
}
