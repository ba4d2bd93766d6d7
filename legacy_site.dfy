/**
 * The handlers of the older version of the site: the hamburger menu, the
 * scroll-to-top button, the theme button, the tab switcher and the
 * read-more button. Every element they touch is assumed to exist; a
 * missing one makes the script throw part-way, which is not modelled.
 */
module LegacySite {
  import opened Dom

  // ---------------------------------------------------------------------
  // Hamburger menu
  // ---------------------------------------------------------------------

  /** The classes of `.hamburger` and of `.nav-menu`. */
  datatype MenuState = MenuState(hamburger: ClassList, navMenu: ClassList)

  /** The hamburger's click handler: toggles "active" on both elements. */
  function HamburgerClicked(s: MenuState): (r: MenuState)
    ensures "active" in r.hamburger <==> "active" !in s.hamburger
    ensures "active" in r.navMenu <==> "active" !in s.navMenu
    ensures r.hamburger - {"active"} == s.hamburger - {"active"}
    ensures r.navMenu - {"active"} == s.navMenu - {"active"}
  {
    MenuState(Toggle(s.hamburger, "active"), Toggle(s.navMenu, "active"))
  }

  /** Every `.nav-link`'s click handler: removes "active" from both elements. */
  function NavLinkClicked(s: MenuState): (r: MenuState)
    ensures "active" !in r.hamburger && "active" !in r.navMenu
    ensures r.hamburger - {"active"} == s.hamburger - {"active"}
    ensures r.navMenu - {"active"} == s.navMenu - {"active"}
  {
    MenuState(s.hamburger - {"active"}, s.navMenu - {"active"})
  }

  /** The two elements agree on "active". */
  predicate MenuSynced(s: MenuState)
  {
    "active" in s.hamburger <==> "active" in s.navMenu
  }

  /**
   * Two hamburger clicks restore both class lists; a nav-link click closes
   * whatever the prior state and a second one changes nothing; both handlers
   * keep the two elements in agreement.
   */
  lemma MenuRoundTrips(s: MenuState)
    ensures HamburgerClicked(HamburgerClicked(s)) == s
    ensures NavLinkClicked(NavLinkClicked(s)) == NavLinkClicked(s)
    ensures NavLinkClicked(HamburgerClicked(NavLinkClicked(s))) == NavLinkClicked(s)
    ensures MenuSynced(s) ==> MenuSynced(HamburgerClicked(s))
    ensures MenuSynced(NavLinkClicked(s))
  {
    ToggleTwice(s.hamburger, "active");
    ToggleTwice(s.navMenu, "active");
  }

  class HamburgerMenu {
    var hamburger: ClassList
    var navMenu: ClassList

    function State(): MenuState
      reads this
    {
      MenuState(hamburger, navMenu)
    }

    constructor (s: MenuState)
      ensures State() == s
    {
      hamburger, navMenu := s.hamburger, s.navMenu;
    }

    method HamburgerClick()
      modifies this
      ensures State() == HamburgerClicked(old(State()))
    {
      hamburger := Toggle(hamburger, "active");
      navMenu := Toggle(navMenu, "active");
    }

    method NavLinkClick()
      modifies this
      ensures State() == NavLinkClicked(old(State()))
    {
      hamburger := hamburger - {"active"};
      navMenu := navMenu - {"active"};
    }
  }

  // ---------------------------------------------------------------------
  // Scroll-to-top button
  // ---------------------------------------------------------------------

  /**
   * `scrollTop / scrollTotal > 0.2` on JavaScript numbers. A zero total
   * gives Infinity for a positive numerator (true) and NaN or -Infinity
   * otherwise (false).
   */
  function PastFifth(scrollTop: int, scrollTotal: int): bool
  {
    if scrollTotal == 0 then scrollTop > 0
    else (scrollTop as real) / (scrollTotal as real) > 0.2
  }

  /** Dividing by a positive number keeps the comparison with one fifth, by a negative one reverses it. */
  lemma FifthOfQuotient(t: real, total: real)
    requires total != 0.0
    ensures total > 0.0 ==> (t / total > 0.2 <==> 5.0 * t > total)
    ensures total < 0.0 ==> (t / total > 0.2 <==> 5.0 * t < total)
  {
    var q := t / total;
    assert t == q * total;
    assert 5.0 * t - total == (5.0 * q - 1.0) * total;
  }

  /** On a scrollable page the test is `5 * scrollTop > scrollTotal` in integers (and reversed for a negative total). */
  lemma PastFifthInIntegers(scrollTop: int, scrollTotal: int)
    ensures scrollTotal > 0 ==> (PastFifth(scrollTop, scrollTotal) <==> 5 * scrollTop > scrollTotal)
    ensures scrollTotal < 0 ==> (PastFifth(scrollTop, scrollTotal) <==> 5 * scrollTop < scrollTotal)
  {
    if scrollTotal != 0 {
      FifthOfQuotient(scrollTop as real, scrollTotal as real);
      assert (5 * scrollTop) as real == 5.0 * (scrollTop as real);
    }
  }

  /** The `.scrollTop` button's classes. */
  class ScrollTopButton {
    var classes: ClassList

    constructor (classes: ClassList)
      ensures this.classes == classes
    {
      this.classes := classes;
    }

    /** `handleScroll()`; the root element's three extents are passed in. */
    method HandleScroll(scrollTop: int, scrollHeight: int, clientHeight: int)
      modifies this
      ensures "show" in classes <==> PastFifth(scrollTop, scrollHeight - clientHeight)
      ensures classes - {"show"} == old(classes) - {"show"}
    {
      var scrollTotal := scrollHeight - clientHeight;
      if PastFifth(scrollTop, scrollTotal) {
        classes := classes + {"show"};
      } else {
        classes := classes - {"show"};
      }
    }
  }

  // ---------------------------------------------------------------------
  // Theme button
  // ---------------------------------------------------------------------

  /** The body's classes and the theme button's classes. */
  datatype ThemeState = ThemeState(body: ClassList, button: ClassList)

  /** The override class a click toggles: light on a dark OS, dark otherwise. */
  function OverrideClass(prefersDark: bool): (r: string)
  {
    if prefersDark then "light-theme" else "dark-theme"
  }

  /** The theme button's click handler, with the OS dark-mode flag at the time of the click. */
  function ThemeClicked(s: ThemeState, prefersDark: bool): (r: ThemeState)
  {
    if prefersDark then
      ThemeState(Toggle(s.body, "light-theme"), Toggle(s.button, "bx-sun"))
    else
      ThemeState(Toggle(s.body, "dark-theme"), Toggle(s.button, "bx-sun"))
  }

  /**
   * A click toggles the override class chosen by the OS flag and the sun
   * icon, and nothing else; two clicks with the same flag restore both
   * class lists.
   */
  lemma ThemeClickToggles(s: ThemeState, prefersDark: bool)
    ensures var r := ThemeClicked(s, prefersDark); var o := OverrideClass(prefersDark);
      && (o in r.body <==> o !in s.body)
      && r.body - {o} == s.body - {o}
      && ("bx-sun" in r.button <==> "bx-sun" !in s.button)
      && r.button - {"bx-sun"} == s.button - {"bx-sun"}
    ensures ThemeClicked(ThemeClicked(s, prefersDark), prefersDark) == s
  {
    ToggleTwice(s.body, OverrideClass(prefersDark));
    ToggleTwice(s.button, "bx-sun");
  }

  /** `n` clicks with the same OS flag. */
  function ThemeClicks(s: ThemeState, prefersDark: bool, n: nat): (r: ThemeState)
    decreases n
  {
    if n == 0 then s else ThemeClicks(ThemeClicked(s, prefersDark), prefersDark, n - 1)
  }

  /** Only the parity of the number of clicks matters. */
  lemma {:induction false} ThemeClicksParity(s: ThemeState, prefersDark: bool, n: nat)
    ensures ThemeClicks(s, prefersDark, n) == if n % 2 == 0 then s else ThemeClicked(s, prefersDark)
    decreases n
  {
    if n >= 2 {
      ThemeClickToggles(s, prefersDark);
      calc {
        ThemeClicks(s, prefersDark, n);
        ThemeClicks(ThemeClicked(ThemeClicked(s, prefersDark), prefersDark), prefersDark, n - 2);
        ThemeClicks(s, prefersDark, n - 2);
      }
      ThemeClicksParity(s, prefersDark, n - 2);
    }
  }

  /**
   * Starting from the markup's state (no override, no sun icon), any number
   * of clicks under one OS flag leaves at most the one override class that
   * flag selects, with the sun icon shown exactly when it is applied.
   */
  lemma ThemeOverrideExclusive(s: ThemeState, prefersDark: bool, n: nat)
    requires "light-theme" !in s.body && "dark-theme" !in s.body && "bx-sun" !in s.button
    ensures var r := ThemeClicks(s, prefersDark, n);
      && OverrideClass(!prefersDark) !in r.body
      && ("bx-sun" in r.button <==> OverrideClass(prefersDark) in r.body)
      && (OverrideClass(prefersDark) in r.body <==> n % 2 == 1)
  {
    ThemeClicksParity(s, prefersDark, n);
  }

  class ThemeSwitch {
    var body: ClassList
    var button: ClassList

    function State(): ThemeState
      reads this
    {
      ThemeState(body, button)
    }

    constructor (s: ThemeState)
      ensures State() == s
    {
      body, button := s.body, s.button;
    }

    /** The click handler; `prefersDark` is `prefersDarkScheme.matches` at the time of the click. */
    method Click(prefersDark: bool)
      modifies this
      ensures State() == ThemeClicked(old(State()), prefersDark)
    {
      if prefersDark {
        body := Toggle(body, "light-theme");
        button := Toggle(button, "bx-sun");
      } else {
        body := Toggle(body, "dark-theme");
        button := Toggle(button, "bx-sun");
      }
    }
  }

  // ---------------------------------------------------------------------
  // Tabs
  // ---------------------------------------------------------------------

  /** A `.tab-contents` element: its `id` and its classes. */
  datatype TabContent = TabContent(id: string, classes: ClassList)

  /** The classes of every `.tab-links` element, and the `.tab-contents` elements, in document order. */
  datatype TabState = TabState(links: seq<ClassList>, contents: seq<TabContent>)

  /** `document.getElementById(name)` among the tab contents: the first one with that id. */
  function FirstWithId(contents: seq<TabContent>, name: string): (r: Option<nat>)
    ensures r.Some? ==> r.value < |contents| && contents[r.value].id == name
    ensures r.Some? ==> forall j :: 0 <= j < r.value ==> contents[j].id != name
    ensures r.None? ==> forall j :: 0 <= j < |contents| ==> contents[j].id != name
  {
    if |contents| == 0 then None
    else if contents[0].id == name then Some(0)
    else match FirstWithId(contents[1..], name)
      case None => None
      case Some(k) => Some(k + 1)
  }

  /** `opentab(name)` from the tab link at index `clicked` finds its panel (and does not throw). */
  predicate TabFound(s: TabState, name: string)
  {
    FirstWithId(s.contents, name).Some?
  }

  /** The first loop of `opentab`: every tab link loses "active-link". */
  function ClearLinks(links: seq<ClassList>): (r: seq<ClassList>)
    ensures |r| == |links|
    ensures forall j :: 0 <= j < |r| ==>
      "active-link" !in r[j] && r[j] - {"active-link"} == links[j] - {"active-link"}
  {
    seq(|links|, i requires 0 <= i < |links| => links[i] - {"active-link"})
  }

  /** The second loop of `opentab`: every tab content loses "active-tab". */
  function ClearContents(contents: seq<TabContent>): (r: seq<TabContent>)
    ensures |r| == |contents|
    ensures forall j :: 0 <= j < |r| ==>
      && r[j].id == contents[j].id
      && "active-tab" !in r[j].classes
      && r[j].classes - {"active-tab"} == contents[j].classes - {"active-tab"}
  {
    seq(|contents|, i requires 0 <= i < |contents| => contents[i].(classes := contents[i].classes - {"active-tab"}))
  }

  /**
   * `opentab(name)` clicked from the link at index `clicked`: every link
   * loses "active-link" and every panel "active-tab", the clicked link gains
   * "active-link", and the panel with id `name` gains "active-tab". With no
   * such panel the last step throws and the state is left as it is then.
   */
  function TabOpened(s: TabState, clicked: nat, name: string): (r: TabState)
    requires clicked < |s.links|
  {
    var links := ClearLinks(s.links);
    var contents := ClearContents(s.contents);
    var links' := links[clicked := links[clicked] + {"active-link"}];
    match FirstWithId(s.contents, name)
    case None => TabState(links', contents)
    case Some(k) => TabState(links', contents[k := contents[k].(classes := contents[k].classes + {"active-tab"})])
  }

  /** Two tab states with the same elements, differing at most in the two marker classes. */
  predicate SameButMarkers(a: TabState, b: TabState)
  {
    && |a.links| == |b.links| && |a.contents| == |b.contents|
    && (forall j :: 0 <= j < |a.links| ==> a.links[j] - {"active-link"} == b.links[j] - {"active-link"})
    && (forall j :: 0 <= j < |a.contents| ==>
          a.contents[j].id == b.contents[j].id
          && a.contents[j].classes - {"active-tab"} == b.contents[j].classes - {"active-tab"})
  }

  /**
   * After `opentab`: the clicked link is the only link with "active-link";
   * the first panel with id `name` (if any) is the only panel with
   * "active-tab"; nothing else changes.
   */
  lemma OpenTabExclusive(s: TabState, clicked: nat, name: string)
    requires clicked < |s.links|
    ensures var r := TabOpened(s, clicked, name);
      && SameButMarkers(r, s)
      && (forall j :: 0 <= j < |r.links| ==> ("active-link" in r.links[j] <==> j == clicked))
      && (forall j :: 0 <= j < |r.contents| ==>
            ("active-tab" in r.contents[j].classes <==> FirstWithId(s.contents, name) == Some(j)))
  {
  }

  /** `FirstWithId` depends on the panel ids alone. */
  lemma {:induction false} FirstWithIdSameIds(a: seq<TabContent>, b: seq<TabContent>, name: string)
    requires |a| == |b| && forall j :: 0 <= j < |a| ==> a[j].id == b[j].id
    ensures FirstWithId(a, name) == FirstWithId(b, name)
    decreases |a|
  {
    if |a| > 0 {
      assert a[0].id == b[0].id;
      FirstWithIdSameIds(a[1..], b[1..], name);
    }
  }

  /** `opentab` ignores the marker classes it finds: states that differ only in them end up equal. */
  lemma OpenTabForgetsMarkers(a: TabState, b: TabState, clicked: nat, name: string)
    requires SameButMarkers(a, b) && clicked < |a.links|
    ensures TabOpened(a, clicked, name) == TabOpened(b, clicked, name)
  {
    FirstWithIdSameIds(a.contents, b.contents, name);
    var ra := TabOpened(a, clicked, name);
    var rb := TabOpened(b, clicked, name);
    assert ClearLinks(a.links) == ClearLinks(b.links);
    assert ClearContents(a.contents) == ClearContents(b.contents);
  }

  /**
   * Only the last `opentab` counts: opening `n2` from `c2` after opening `n1`
   * from `c1` is the same as opening `n2` from `c2` directly. In particular
   * `opentab` is idempotent.
   */
  lemma OpenTabLastWins(s: TabState, c1: nat, n1: string, c2: nat, n2: string)
    requires c1 < |s.links| && c2 < |s.links|
    ensures TabOpened(TabOpened(s, c1, n1), c2, n2) == TabOpened(s, c2, n2)
    ensures TabOpened(TabOpened(s, c1, n1), c1, n1) == TabOpened(s, c1, n1)
  {
    OpenTabExclusive(s, c1, n1);
    OpenTabForgetsMarkers(TabOpened(s, c1, n1), s, c2, n2);
    OpenTabForgetsMarkers(TabOpened(s, c1, n1), s, c1, n1);
  }

  class TabSet {
    var links: seq<ClassList>
    var contents: seq<TabContent>

    function State(): TabState
      reads this
    {
      TabState(links, contents)
    }

    constructor (s: TabState)
      ensures State() == s
    {
      links, contents := s.links, s.contents;
    }

    /**
     * `opentab(tabname)` with the clicked tab link (`event.currentTarget`)
     * passed as its index; `found` is false when `getElementById` returns
     * null and the handler throws.
     */
    method OpenTab(clicked: nat, tabname: string) returns (found: bool)
      requires clicked < |links|
      modifies this
      ensures found == TabFound(old(State()), tabname)
      ensures State() == TabOpened(old(State()), clicked, tabname)
    {
      ghost var s := State();
      var i := 0;
      while i < |links|
        invariant 0 <= i <= |links| == |s.links|
        invariant forall m :: 0 <= m < i ==> links[m] == s.links[m] - {"active-link"}
        invariant forall m :: i <= m < |links| ==> links[m] == s.links[m]
        invariant contents == s.contents
      {
        links := links[i := links[i] - {"active-link"}];
        i := i + 1;
      }
      assert links == ClearLinks(s.links);
      i := 0;
      while i < |contents|
        invariant 0 <= i <= |contents| == |s.contents|
        invariant forall m :: 0 <= m < i ==> contents[m] == s.contents[m].(classes := s.contents[m].classes - {"active-tab"})
        invariant forall m :: i <= m < |contents| ==> contents[m] == s.contents[m]
        invariant links == ClearLinks(s.links)
      {
        contents := contents[i := contents[i].(classes := contents[i].classes - {"active-tab"})];
        i := i + 1;
      }
      assert contents == ClearContents(s.contents);
      links := links[clicked := links[clicked] + {"active-link"}];
      var panel := FirstWithId(contents, tabname);
      FirstWithIdSameIds(contents, s.contents, tabname);
      found := panel.Some?;
      if found {
        contents := contents[panel.value := contents[panel.value].(classes := contents[panel.value].classes + {"active-tab"})];
      }
    }
  }

  // ---------------------------------------------------------------------
  // Read more / read less
  // ---------------------------------------------------------------------

  /** `#dots`'s and `#more`'s `style.display`, and `#readBtn`'s `innerHTML`. */
  datatype ReadState = ReadState(dots: string, more: string, buttonText: string)

  const Collapsed: ReadState := ReadState("inline", "none", "Read more")
  const Expanded: ReadState := ReadState("none", "inline", "Read less")

  /** `read()`. */
  function ReadToggled(s: ReadState): (r: ReadState)
  {
    if s.dots == "none" then
      s.(dots := "inline", buttonText := "Read more", more := "none")
    else
      s.(dots := "none", buttonText := "Read less", more := "inline")
  }

  /**
   * `read()` collapses exactly when the dots are hidden and expands from
   * every other state; its result is always one of the two complementary
   * states, and two further calls come back to it.
   */
  lemma ReadToggles(s: ReadState)
    ensures ReadToggled(s) == (if s.dots == "none" then Collapsed else Expanded)
    ensures ReadToggled(Collapsed) == Expanded && ReadToggled(Expanded) == Collapsed
    ensures ReadToggled(ReadToggled(ReadToggled(s))) == ReadToggled(s)
  {
  }

  class ReadMore {
    var dotsDisplay: string
    var moreDisplay: string
    var buttonText: string

    function State(): ReadState
      reads this
    {
      ReadState(dotsDisplay, moreDisplay, buttonText)
    }

    constructor (s: ReadState)
      ensures State() == s
    {
      dotsDisplay, moreDisplay, buttonText := s.dots, s.more, s.buttonText;
    }

    method Read()
      modifies this
      ensures State() == ReadToggled(old(State()))
    {
      if dotsDisplay == "none" {
        dotsDisplay := "inline";
        buttonText := "Read more";
        moreDisplay := "none";
      } else {
        dotsDisplay := "none";
        buttonText := "Read less";
        moreDisplay := "inline";
      }
    }
  }
}
