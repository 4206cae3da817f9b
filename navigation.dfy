/** Link highlighting of js/main.js: `updateActiveSidebarLinks` (lines 90-191) and
    `setInitialActiveLinks` (lines 193-207), over a static picture of the navigation markup whose only
    mutable parts are each anchor's `active` class and each sub-menu's `display`. */
module Navigation {
  import opened Wrappers
  import opened Paths
  import opened ActiveSection

  /** Line 104: viewports at most this wide take the mobile path. */
  const MobileBreakpoint: int := 768

  /** An `a` element of the page, in document order: its `href` attribute, whether it lies inside
      `.nav-menu` and inside `.top-navbar nav`, its `nav-link` / `sub-link` classes, and the nearest
      enclosing `.sub-nav-menu` (an index into the sub-menus), if any. */
  datatype Anchor = Anchor(
    href: string,
    inNavMenu: bool,
    inTopNavbar: bool,
    navLink: bool,
    subLink: bool,
    subMenu: Option<nat>)

  /** A `.sub-nav-menu` element: the anchor that is its `previousElementSibling`, if that is an anchor. */
  datatype SubMenu = SubMenu(previous: Option<nat>)

  /** Every index in the markup refers to an existing element. */
  predicate WellFormed(anchors: seq<Anchor>, subMenus: seq<SubMenu>)
  {
    (forall k :: 0 <= k < |anchors| && anchors[k].subMenu.Some? ==> anchors[k].subMenu.value < |subMenus|) &&
    (forall m :: 0 <= m < |subMenus| && subMenus[m].previous.Some? ==> subMenus[m].previous.value < |anchors|)
  }

  /** Matched by the selector `.nav-menu a[href="<href>"]`. */
  predicate MatchesHref(a: Anchor, href: string)
  {
    a.inNavMenu && a.href == href
  }

  /** `document.querySelector('.nav-menu a[href="…"]')` (lines 105, 162, 169): the first matching anchor. */
  function FindNavMenuLink(anchors: seq<Anchor>, href: string): (found: Option<nat>)
    ensures found.Some? ==> found.value < |anchors| && MatchesHref(anchors[found.value], href)
    ensures found.Some? ==> forall j :: 0 <= j < found.value ==> !MatchesHref(anchors[j], href)
    ensures found.None? ==> forall j :: 0 <= j < |anchors| ==> !MatchesHref(anchors[j], href)
  {
    if anchors == [] then None
    else if MatchesHref(anchors[0], href) then Some(0)
    else
      match FindNavMenuLink(anchors[1..], href)
      case None => None
      case Some(k) => Some(k + 1)
  }

  /** Lines 173-174: the `nav-link` right before the sub-menu that encloses anchor `a`. */
  function ParentLink(anchors: seq<Anchor>, subMenus: seq<SubMenu>, a: nat): (parent: Option<nat>)
    requires WellFormed(anchors, subMenus) && a < |anchors|
    ensures parent.Some? ==> parent.value < |anchors| && anchors[parent.value].navLink
    // the parent is the previous sibling of the sub-menu enclosing `a`, whenever that is a nav-link
    ensures parent.Some? <==>
      anchors[a].subMenu.Some? && subMenus[anchors[a].subMenu.value].previous.Some? &&
      anchors[subMenus[anchors[a].subMenu.value].previous.value].navLink
    ensures parent.Some? ==> subMenus[anchors[a].subMenu.value].previous == parent
  {
    match anchors[a].subMenu
    case None => None
    case Some(m) =>
      match subMenus[m].previous
      case None => None
      case Some(p) => if anchors[p].navLink then Some(p) else None
  }

  /** Lines 175-179: a parent link is highlighted only when it is an in-page anchor, or names the
      current page, or is empty while on the default page. */
  predicate ParentEligible(parentHref: string, currentPage: string)
  {
    StartsWith(parentHref, "#") ||
    LastSegment(parentHref) == currentPage ||
    (currentPage == DefaultPage && LastSegment(parentHref) == "")
  }

  /** What one pass highlights: the page link, the section link, its parent link, and the sub-menu
      it shows. */
  datatype Marks = Marks(page: Option<nat>, section: Option<nat>, parent: Option<nat>, menu: Option<nat>)

  predicate InRange(o: Option<nat>, n: nat)
  {
    o.Some? ==> o.value < n
  }

  /** Lines 104-189: what the pass highlights, given the section geometry and viewport. */
  function PassMarks(anchors: seq<Anchor>, subMenus: seq<SubMenu>, pathname: string, innerWidth: int,
                     innerHeight: real, activationOffset: real, sections: seq<Section>): (m: Marks)
    requires WellFormed(anchors, subMenus)
    ensures InRange(m.page, |anchors|) && InRange(m.section, |anchors|) && InRange(m.parent, |anchors|)
    ensures InRange(m.menu, |subMenus|)
    // the page link is highlighted on both paths
    ensures m.page == FindNavMenuLink(anchors, CurrentPage(pathname))
    // the mobile path ignores the geometry
    ensures innerWidth <= MobileBreakpoint ==> m.section.None? && m.parent.None? && m.menu.None?
    // the section link is the link to the resolved section
    ensures m.section.Some? <==>
      innerWidth > MobileBreakpoint && CurrentSectionId(sections, innerHeight, activationOffset) != "" &&
      FindNavMenuLink(anchors, "#" + CurrentSectionId(sections, innerHeight, activationOffset)).Some?
    ensures m.section.Some? ==>
      m.section == FindNavMenuLink(anchors, "#" + CurrentSectionId(sections, innerHeight, activationOffset))
    // the parent is highlighted exactly when it is eligible, together with the sub-menu holding the section link
    ensures m.parent.Some? <==>
      m.section.Some? && ParentLink(anchors, subMenus, m.section.value).Some? &&
      ParentEligible(anchors[ParentLink(anchors, subMenus, m.section.value).value].href, CurrentPage(pathname))
    ensures m.parent.Some? ==> m.parent == ParentLink(anchors, subMenus, m.section.value)
    ensures m.menu.Some? <==> m.parent.Some?
    ensures m.menu.Some? ==>
      anchors[m.section.value].subMenu == m.menu && subMenus[m.menu.value].previous == m.parent
  {
    var currentPage := CurrentPage(pathname);
    var page := FindNavMenuLink(anchors, currentPage);
    if innerWidth <= MobileBreakpoint then Marks(page, None, None, None)
    else SectionMarks(anchors, subMenus, currentPage, CurrentSectionId(sections, innerHeight, activationOffset)).(page := page)
  }

  /** Lines 168-189: the section link for a resolved id, and its parent link and sub-menu when the
      parent qualifies. */
  function SectionMarks(anchors: seq<Anchor>, subMenus: seq<SubMenu>, currentPage: string,
                        currentSectionId: string): (m: Marks)
    requires WellFormed(anchors, subMenus)
    ensures m.page.None? && InRange(m.section, |anchors|) && InRange(m.parent, |anchors|)
    ensures InRange(m.menu, |subMenus|)
  {
    var link := if currentSectionId != "" then FindNavMenuLink(anchors, "#" + currentSectionId) else None;
    match link
    case None => Marks(None, None, None, None)
    case Some(a) =>
      var parent := ParentLink(anchors, subMenus, a);
      if parent.Some? && ParentEligible(anchors[parent.value].href, currentPage)
      then Marks(None, link, parent, anchors[a].subMenu)
      else Marks(None, link, None, None)
  }

  /** Lines 94-99: the anchors whose `active` class every pass removes. */
  predicate Cleared(a: Anchor)
  {
    a.inNavMenu && (a.navLink || a.subLink)
  }

  /** The `active` classes after the removals of lines 94-99. */
  function ClearedActive(anchors: seq<Anchor>, active: seq<bool>): (r: seq<bool>)
    requires |active| == |anchors|
    ensures |r| == |active|
  {
    seq(|active|, k requires 0 <= k < |active| => active[k] && !Cleared(anchors[k]))
  }

  /** `classList.add('active')` on an optional anchor. */
  function AddActive(active: seq<bool>, o: Option<nat>): (r: seq<bool>)
    ensures |r| == |active|
  {
    if o.Some? && o.value < |active| then active[o.value := true] else active
  }

  /** The `active` classes after a whole pass: the removals, then the additions. */
  function ActiveAfterPass(anchors: seq<Anchor>, active: seq<bool>, m: Marks): (r: seq<bool>)
    requires |active| == |anchors|
    ensures |r| == |anchors|
  {
    AddActive(AddActive(AddActive(ClearedActive(anchors, active), m.page), m.section), m.parent)
  }

  /** The sub-menu displays after a pass: all hidden (lines 100-102), then the one of line 184 shown. */
  function ShownAfterPass(count: nat, m: Marks): (r: seq<bool>)
    ensures |r| == count
  {
    seq(count, i => m.menu == Some(i))
  }

  predicate Marked(m: Marks, k: nat)
  {
    m.page == Some(k) || m.section == Some(k) || m.parent == Some(k)
  }

  /** What a pass leaves: an anchor is active exactly when the pass highlights it or, for anchors outside
      the cleared set only, it was active before. So the cleared anchors depend on the inputs alone. */
  lemma ActiveAfterPassExact(anchors: seq<Anchor>, active: seq<bool>, m: Marks)
    requires |active| == |anchors|
    ensures forall k :: 0 <= k < |anchors| ==>
      (ActiveAfterPass(anchors, active, m)[k] <==> Marked(m, k) || (active[k] && !Cleared(anchors[k])))
  {
  }

  /** Running the pass twice with the same inputs leaves the same classes as running it once. (The
      displays after a pass, `ShownAfterPass`, depend on the marks alone.) */
  lemma PassIdempotent(anchors: seq<Anchor>, active: seq<bool>, m: Marks)
    requires |active| == |anchors|
    ensures ActiveAfterPass(anchors, ActiveAfterPass(anchors, active, m), m) == ActiveAfterPass(anchors, active, m)
  {
    var once := ActiveAfterPass(anchors, active, m);
    var twice := ActiveAfterPass(anchors, once, m);
    ActiveAfterPassExact(anchors, active, m);
    ActiveAfterPassExact(anchors, once, m);
    assert forall k :: 0 <= k < |anchors| ==> twice[k] == once[k];
  }

  /** After a pass at most one sub-menu is displayed, and a displayed sub-menu holds the active section
      link and follows its active parent link. */
  lemma ShownMenuConsistent(anchors: seq<Anchor>, subMenus: seq<SubMenu>, pathname: string, innerWidth: int,
                            innerHeight: real, activationOffset: real, sections: seq<Section>, active: seq<bool>)
    requires WellFormed(anchors, subMenus) && |active| == |anchors|
    ensures var m := PassMarks(anchors, subMenus, pathname, innerWidth, innerHeight, activationOffset, sections);
      var shown := ShownAfterPass(|subMenus|, m);
      var after := ActiveAfterPass(anchors, active, m);
      (forall i, j :: 0 <= i < j < |subMenus| ==> !(shown[i] && shown[j])) &&
      (forall i :: 0 <= i < |subMenus| && shown[i] ==>
         subMenus[i].previous.Some? && after[subMenus[i].previous.value] &&
         exists a :: 0 <= a < |anchors| && anchors[a].subMenu == Some(i) && after[a])
  {
    var m := PassMarks(anchors, subMenus, pathname, innerWidth, innerHeight, activationOffset, sections);
    ActiveAfterPassExact(anchors, active, m);
    if m.menu.Some? {
      var a := m.section.value;
      assert Marked(m, a);
    }
  }

  /** Lines 196-203: a `.top-navbar nav a` link is made active exactly when the last segment of its href
      names the current page, and inactive otherwise; other anchors keep their class. */
  function TopNavbarMarked(anchors: seq<Anchor>, active: seq<bool>, currentPage: string): (r: seq<bool>)
    requires |active| == |anchors|
    ensures |r| == |anchors|
    ensures forall k :: 0 <= k < |anchors| && anchors[k].inTopNavbar ==>
      (r[k] <==> LastSegment(anchors[k].href) == currentPage)
    ensures forall k :: 0 <= k < |anchors| && !anchors[k].inTopNavbar ==> r[k] == active[k]
  {
    seq(|anchors|, k requires 0 <= k < |anchors| =>
      if anchors[k].inTopNavbar then LastSegment(anchors[k].href) == currentPage else active[k])
  }

  /** Outcome of the pass exactly as written. */
  datatype PassOutcome = Completed(marks: Marks) | ReferenceError

  /** Lines 90-191 as written, with `binding` the value of a global `activationOffset` (None: declared
      nowhere, as in js/main.js and script.js). The mobile path never reads the name; the desktop path
      reads it in the best-match loop, after the removals of lines 94-102 have run. */
  function PassAsWritten(anchors: seq<Anchor>, subMenus: seq<SubMenu>, pathname: string, innerWidth: int,
                         innerHeight: real, binding: Option<real>, sections: seq<Section>): PassOutcome
    requires WellFormed(anchors, subMenus)
  {
    var offset := if binding.Some? then binding.value else 0.0;
    if innerWidth <= MobileBreakpoint then
      Completed(PassMarks(anchors, subMenus, pathname, innerWidth, innerHeight, offset, sections))
    else
      match BestMatchBound(sections, |sections|, innerHeight, binding)
      case None => ReferenceError
      case Some(_) => Completed(PassMarks(anchors, subMenus, pathname, innerWidth, innerHeight, offset, sections))
  }

  /** The pass as written throws exactly on the desktop path over at least one section when the offset is
      unbound; with a bound offset it is the intended pass. */
  lemma PassAsWrittenOutcome(anchors: seq<Anchor>, subMenus: seq<SubMenu>, pathname: string, innerWidth: int,
                             innerHeight: real, binding: Option<real>, sections: seq<Section>)
    requires WellFormed(anchors, subMenus)
    ensures PassAsWritten(anchors, subMenus, pathname, innerWidth, innerHeight, binding, sections).ReferenceError? <==>
      innerWidth > MobileBreakpoint && |sections| > 0 && binding.None?
    ensures binding.Some? ==>
      PassAsWritten(anchors, subMenus, pathname, innerWidth, innerHeight, binding, sections) ==
      Completed(PassMarks(anchors, subMenus, pathname, innerWidth, innerHeight, binding.value, sections))
  {
    BestMatchBoundThrows(sections, |sections|, innerHeight, binding);
  }

  function ActiveAfterOutcome(anchors: seq<Anchor>, active: seq<bool>, outcome: PassOutcome): seq<bool>
    requires |active| == |anchors|
  {
    match outcome
    case ReferenceError => ClearedActive(anchors, active)
    case Completed(m) => ActiveAfterPass(anchors, active, m)
  }

  /** As written, a desktop pass over a page with sections leaves every cleared `.nav-menu` link
      un-highlighted, the current page's included, where the pass with an activation offset highlights
      the current page's link. */
  lemma AsWrittenLosesPageLink(anchors: seq<Anchor>, subMenus: seq<SubMenu>, pathname: string, innerWidth: int,
                               innerHeight: real, activationOffset: real, sections: seq<Section>, active: seq<bool>)
    requires WellFormed(anchors, subMenus) && |active| == |anchors|
    requires innerWidth > MobileBreakpoint && |sections| > 0
    requires FindNavMenuLink(anchors, CurrentPage(pathname)).Some?
    requires Cleared(anchors[FindNavMenuLink(anchors, CurrentPage(pathname)).value])
    ensures var after := ActiveAfterOutcome(anchors, active,
                           PassAsWritten(anchors, subMenus, pathname, innerWidth, innerHeight, None, sections));
      forall k :: 0 <= k < |anchors| && Cleared(anchors[k]) ==> !after[k]
    ensures var p := FindNavMenuLink(anchors, CurrentPage(pathname)).value;
      ActiveAfterPass(anchors, active,
        PassMarks(anchors, subMenus, pathname, innerWidth, innerHeight, activationOffset, sections))[p]
  {
    PassAsWrittenOutcome(anchors, subMenus, pathname, innerWidth, innerHeight, None, sections);
    var m := PassMarks(anchors, subMenus, pathname, innerWidth, innerHeight, activationOffset, sections);
    ActiveAfterPassExact(anchors, active, m);
  }

  /** Displaying one sub-menu after hiding them all leaves exactly that one displayed. */
  lemma ShowOne(count: nat, m: Marks)
    requires InRange(m.menu, count)
    ensures ShownAfterPass(count, m) ==
      if m.menu.Some? then ShownAfterPass(count, Marks(None, None, None, None))[m.menu.value := true]
      else ShownAfterPass(count, Marks(None, None, None, None))
  {
  }

  /** The navigation markup and its mutable state. */
  class NavigationMenu {
    const anchors: seq<Anchor>
    const subMenus: seq<SubMenu>
    /** `classList.contains('active')` per anchor. */
    var active: seq<bool>
    /** `style.display !== 'none'` per sub-menu. */
    var shown: seq<bool>

    ghost predicate Valid()
      reads this
    {
      WellFormed(anchors, subMenus) && |active| == |anchors| && |shown| == |subMenus|
    }

    constructor (anchors: seq<Anchor>, subMenus: seq<SubMenu>, active: seq<bool>, shown: seq<bool>)
      requires WellFormed(anchors, subMenus) && |active| == |anchors| && |shown| == |subMenus|
      ensures Valid()
      ensures this.anchors == anchors && this.subMenus == subMenus && this.active == active && this.shown == shown
    {
      this.anchors := anchors;
      this.subMenus := subMenus;
      this.active := active;
      this.shown := shown;
    }

    /** Lines 94-102: remove `active` from every `.nav-menu .nav-link`, then every `.nav-menu .sub-link`,
        and hide every `.sub-nav-menu`. */
    method ClearActive()
      requires Valid()
      modifies this
      ensures Valid()
      ensures active == ClearedActive(anchors, old(active))
      ensures shown == ShownAfterPass(|subMenus|, Marks(None, None, None, None))
    {
      var k := 0;
      while k < |anchors|
        invariant Valid() && k <= |anchors|
        invariant forall j :: 0 <= j < k ==> active[j] == (old(active)[j] && !(anchors[j].inNavMenu && anchors[j].navLink))
        invariant forall j :: k <= j < |anchors| ==> active[j] == old(active)[j]
      {
        if anchors[k].inNavMenu && anchors[k].navLink {
          active := active[k := false];
        }
        k := k + 1;
      }
      k := 0;
      while k < |anchors|
        invariant Valid() && k <= |anchors|
        invariant forall j :: 0 <= j < k ==> active[j] == (old(active)[j] && !Cleared(anchors[j]))
        invariant forall j :: k <= j < |anchors| ==> active[j] == (old(active)[j] && !(anchors[j].inNavMenu && anchors[j].navLink))
      {
        if anchors[k].inNavMenu && anchors[k].subLink {
          active := active[k := false];
        }
        k := k + 1;
      }
      assert active == ClearedActive(anchors, old(active));
      var i := 0;
      while i < |subMenus|
        invariant Valid() && i <= |subMenus|
        invariant active == ClearedActive(anchors, old(active))
        invariant forall j :: 0 <= j < i ==> !shown[j]
      {
        shown := shown[i := false];
        i := i + 1;
      }
    }

    /** Lines 168-189: highlight the link to the resolved section and, when it qualifies, its parent
        link, and display the sub-menu between them. */
    method MarkSectionLink(currentPage: string, currentSectionId: string)
      requires Valid()
      modifies this
      ensures Valid()
      ensures var m := SectionMarks(anchors, subMenus, currentPage, currentSectionId);
        active == AddActive(AddActive(old(active), m.section), m.parent) &&
        shown == if m.menu.Some? then old(shown)[m.menu.value := true] else old(shown)
    {
      if currentSectionId != "" {
        var sectionLink := FindNavMenuLink(anchors, "#" + currentSectionId);
        if sectionLink.Some? {
          active := active[sectionLink.value := true];
          var parent := ParentLink(anchors, subMenus, sectionLink.value);
          if parent.Some? && ParentEligible(anchors[parent.value].href, currentPage) {
            active := active[parent.value := true];
            var menu := anchors[sectionLink.value].subMenu.value;
            shown := shown[menu := true];
          }
        }
      }
    }

    /** `updateActiveSidebarLinks` (lines 90-191). The activation offset is the `.top-navbar` height of
        line 92, which line 130 evidently means by the undeclared `activationOffset`. */
    method UpdateActiveSidebarLinks(pathname: string, innerWidth: int, innerHeight: real,
                                    activationOffset: real, sections: seq<Section>)
      requires Valid()
      modifies this
      ensures Valid()
      ensures var m := PassMarks(anchors, subMenus, pathname, innerWidth, innerHeight, activationOffset, sections);
        active == ActiveAfterPass(anchors, old(active), m) && shown == ShownAfterPass(|subMenus|, m)
    {
      var currentPage := CurrentPage(pathname);
      ClearActive();
      var pageLink := FindNavMenuLink(anchors, currentPage);
      if innerWidth <= MobileBreakpoint {
        if pageLink.Some? {
          active := active[pageLink.value := true];
        }
      } else {
        var currentSectionId := ResolveCurrentSection(sections, innerHeight, activationOffset);
        if pageLink.Some? {
          active := active[pageLink.value := true];
        }
        MarkSectionLink(currentPage, currentSectionId);
        ShowOne(|subMenus|, SectionMarks(anchors, subMenus, currentPage, currentSectionId).(page := pageLink));
      }
    }

    /** Lines 196-203: the `.top-navbar nav a` loop. */
    method MarkTopNavbarLinks(currentPage: string)
      requires Valid()
      modifies this
      ensures Valid() && shown == old(shown)
      ensures active == TopNavbarMarked(anchors, old(active), currentPage)
    {
      var k := 0;
      while k < |anchors|
        invariant Valid() && k <= |anchors| && shown == old(shown)
        invariant forall j :: 0 <= j < k ==> active[j] == TopNavbarMarked(anchors, old(active), currentPage)[j]
        invariant forall j :: k <= j < |anchors| ==> active[j] == old(active)[j]
      {
        if anchors[k].inTopNavbar {
          var linkPage := LastSegment(anchors[k].href);
          active := active[k := linkPage == currentPage];
        }
        k := k + 1;
      }
    }

    /** `setInitialActiveLinks` (lines 193-207): mark the top-bar links, then run a full pass. */
    method SetInitialActiveLinks(pathname: string, innerWidth: int, innerHeight: real,
                                 activationOffset: real, sections: seq<Section>)
      requires Valid()
      modifies this
      ensures Valid()
      ensures var m := PassMarks(anchors, subMenus, pathname, innerWidth, innerHeight, activationOffset, sections);
        active == ActiveAfterPass(anchors, TopNavbarMarked(anchors, old(active), CurrentPage(pathname)), m) &&
        shown == ShownAfterPass(|subMenus|, m)
    {
      MarkTopNavbarLinks(CurrentPage(pathname));
      UpdateActiveSidebarLinks(pathname, innerWidth, innerHeight, activationOffset, sections);
    }
  }
}
