/**
 * The site navigation bar (src/components/ui/navbar.tsx): which links are
 * highlighted for the current path, and the state of the desktop dropdown,
 * the mobile menu and the mobile dropdown.
 */
module Navbar {
  import opened Wrappers

  datatype SectionItem = SectionItem(name: string, path: string)

  datatype Section = Section(heading: string, items: seq<SectionItem>)

  datatype NavNode =
    | Link(name: string, path: string)
    | Dropdown(name: string, sections: seq<Section>)

  /** The common prefix of the dropdown's item paths. */
  const MbbsPrefix := "/mbbs-abroad/"

  const MbbsSections: seq<Section> := [
    Section("MBBS IN GEORGIA", [
      SectionItem("The University Of Georgia", MbbsPrefix + "georgia/university-of-georgia"),
      SectionItem("Ken Walker International University", MbbsPrefix + "georgia/ken-walker-international-university"),
      SectionItem("Tbilisi State Medical University", MbbsPrefix + "georgia/tbilisi-state-medical-university"),
      SectionItem("Ilia State University", MbbsPrefix + "georgia/ilia-state-university"),
      SectionItem("Akaki Tsereteli State University", MbbsPrefix + "georgia/akaki-tsereteli-state-university")
    ]),
    Section("MBBS IN RUSSIA", [
      SectionItem("Belgorod State National Research University", MbbsPrefix + "russia/belgorod-state-national-research-university")
    ])
  ]

  const DropdownName := "MBBS-ABROAD"

  const NavStructure: seq<NavNode> := [
    Link("Home", "/"),
    Link("About", "/about"),
    Dropdown(DropdownName, MbbsSections),
    Link("360_VIEW", "/360-view"),
    Link("GALLERY", "/gallery"),
    Link("CONTACT", "/contact")
  ]

  // ---------------------------------------------------------------------------
  // Active links

  /** `s.startsWith(p)`. */
  predicate StartsWith(s: string, p: string) {
    |p| <= |s| && s[..|p|] == p
  }

  /**
   * `isPathActive`: the home path only on an exact match, every other path
   * whenever the current path begins with it.
   */
  predicate IsPathActive(pathname: string, path: string) {
    if path == "/" then pathname == "/" else pathname == path || StartsWith(pathname, path)
  }

  /** The home link needs an exact match; any other link is active exactly when the current path extends it. */
  lemma IsPathActiveSpec(pathname: string, path: string)
    ensures path == "/" ==> (IsPathActive(pathname, path) <==> pathname == "/")
    ensures path != "/" ==> (IsPathActive(pathname, path) <==> exists rest :: pathname == path + rest)
  {
    if path != "/" {
      if IsPathActive(pathname, path) {
        assert pathname == path + pathname[|path|..];
      }
      if exists rest :: pathname == path + rest {
        var rest :| pathname == path + rest;
        assert pathname[..|path|] == path;
      }
    }
  }

  /** The match is not segment-aware: a path that merely continues a link's path past a segment boundary activates it. */
  lemma NotSegmentAware()
    ensures IsPathActive("/aboutus", "/about")
    ensures IsPathActive("/gallery-old", "/gallery")
    ensures !IsPathActive("/about", "/")
  {
    assert "/aboutus"[..|"/about"|] == "/about";
    assert "/gallery-old"[..|"/gallery"|] == "/gallery";
  }

  /** Some item of the section is active: the inner `some`. */
  predicate AnyItemActive(pathname: string, items: seq<SectionItem>)
  {
    items != [] && (IsPathActive(pathname, items[0].path) || AnyItemActive(pathname, items[1..]))
  }

  /** `isDropdownActive`: some item of some section is active. */
  predicate IsDropdownActive(pathname: string, sections: seq<Section>)
  {
    sections != [] && (AnyItemActive(pathname, sections[0].items) || IsDropdownActive(pathname, sections[1..]))
  }

  lemma {:induction false} AnyItemActiveSpec(pathname: string, items: seq<SectionItem>)
    ensures AnyItemActive(pathname, items) <==> exists j :: 0 <= j < |items| && IsPathActive(pathname, items[j].path)
  {
    if items != [] {
      AnyItemActiveSpec(pathname, items[1..]);
      if exists j :: 0 <= j < |items| && IsPathActive(pathname, items[j].path) {
        var j :| 0 <= j < |items| && IsPathActive(pathname, items[j].path);
        if j > 0 {
          assert items[1..][j - 1] == items[j];
        }
      }
      if AnyItemActive(pathname, items[1..]) {
        var j :| 0 <= j < |items[1..]| && IsPathActive(pathname, items[1..][j].path);
        assert items[j + 1] == items[1..][j];
      }
    }
  }

  /** The dropdown is highlighted exactly when one of its items is. */
  lemma {:induction false} IsDropdownActiveSpec(pathname: string, sections: seq<Section>)
    ensures IsDropdownActive(pathname, sections) <==>
      exists i, j :: 0 <= i < |sections| && 0 <= j < |sections[i].items| && IsPathActive(pathname, sections[i].items[j].path)
  {
    if sections != [] {
      IsDropdownActiveSpec(pathname, sections[1..]);
      AnyItemActiveSpec(pathname, sections[0].items);
      if exists i, j :: 0 <= i < |sections| && 0 <= j < |sections[i].items| && IsPathActive(pathname, sections[i].items[j].path) {
        var i, j :| 0 <= i < |sections| && 0 <= j < |sections[i].items| && IsPathActive(pathname, sections[i].items[j].path);
        if i > 0 {
          assert sections[1..][i - 1] == sections[i];
        }
      }
      if IsDropdownActive(pathname, sections[1..]) {
        var i, j :| 0 <= i < |sections[1..]| && 0 <= j < |sections[1..][i].items| && IsPathActive(pathname, sections[1..][i].items[j].path);
        assert sections[i + 1] == sections[1..][i];
      }
    }
  }

  lemma StartsWithConcat(p: string, rest: string)
    ensures StartsWith(p + rest, p)
  {
    assert (p + rest)[..|p|] == p;
  }

  /** Every item of the dropdown lives under `/mbbs-abroad/`. */
  lemma MbbsPaths()
    ensures forall i, j :: 0 <= i < |MbbsSections| && 0 <= j < |MbbsSections[i].items| ==>
      StartsWith(MbbsSections[i].items[j].path, MbbsPrefix)
  {
    StartsWithConcat(MbbsPrefix, "georgia/university-of-georgia");
    StartsWithConcat(MbbsPrefix, "georgia/ken-walker-international-university");
    StartsWithConcat(MbbsPrefix, "georgia/tbilisi-state-medical-university");
    StartsWithConcat(MbbsPrefix, "georgia/ilia-state-university");
    StartsWithConcat(MbbsPrefix, "georgia/akaki-tsereteli-state-university");
    StartsWithConcat(MbbsPrefix, "russia/belgorod-state-national-research-university");
  }

  lemma StartsWithTrans(s: string, p: string, q: string)
    requires StartsWith(s, p) && StartsWith(p, q)
    ensures StartsWith(s, q)
  {
    assert s[..|q|] == s[..|p|][..|q|];
  }

  /** The dropdown is highlighted only on pages under `/mbbs-abroad/`, and is highlighted on a university page. */
  lemma DropdownActiveUnderMbbs(pathname: string)
    ensures IsDropdownActive(pathname, MbbsSections) ==> StartsWith(pathname, MbbsPrefix)
    ensures IsDropdownActive(MbbsPrefix + "georgia/university-of-georgia", MbbsSections)
  {
    IsDropdownActiveSpec(pathname, MbbsSections);
    MbbsPaths();
    if IsDropdownActive(pathname, MbbsSections) {
      var i, j :| 0 <= i < |MbbsSections| && 0 <= j < |MbbsSections[i].items|
        && IsPathActive(pathname, MbbsSections[i].items[j].path);
      var path := MbbsSections[i].items[j].path;
      assert path != "/" by {
        assert |path| > 1;
      }
      if pathname != path {
        StartsWithTrans(pathname, path, MbbsPrefix);
      }
    }
    var home := MbbsPrefix + "georgia/university-of-georgia";
    IsDropdownActiveSpec(home, MbbsSections);
    assert IsPathActive(home, MbbsSections[0].items[0].path);
  }

  // ---------------------------------------------------------------------------
  // Menu state

  /** The toggle of a dropdown: closed if `name` is the one open, `name` otherwise. */
  function Toggle(v: Option<string>, name: string): (r: Option<string>)
    ensures r.None? <==> v == Some(name)
    ensures r.Some? ==> r.value == name
  {
    if v == Some(name) then None else Some(name)
  }

  /**
   * Two clicks restore the prior state when nothing or the same dropdown was
   * open; with another dropdown open they leave everything closed.
   */
  lemma ToggleTwice(v: Option<string>, name: string)
    ensures v == None || v == Some(name) ==> Toggle(Toggle(v, name), name) == v
    ensures v.Some? && v.value != name ==> Toggle(Toggle(v, name), name) == None
  {
  }

  /** The names of the dropdown nodes. */
  function DropdownNames(nodes: seq<NavNode>): (names: set<string>)
    ensures forall k :: 0 <= k < |nodes| && nodes[k].Dropdown? ==> nodes[k].name in names
    ensures forall n :: n in names ==> exists k :: 0 <= k < |nodes| && nodes[k].Dropdown? && nodes[k].name == n
  {
    set k | 0 <= k < |nodes| && nodes[k].Dropdown? :: nodes[k].name
  }

  /** The one dropdown of the navigation bar. */
  lemma OneDropdown()
    ensures DropdownNames(NavStructure) == {DropdownName}
  {
    var names := DropdownNames(NavStructure);
    assert NavStructure[2].Dropdown?;
    forall n | n in names ensures n == DropdownName {
      var k :| 0 <= k < |NavStructure| && NavStructure[k].Dropdown? && NavStructure[k].name == n;
      assert k == 2;
    }
  }

  /** `isScrolled`: the page is scrolled past ten pixels. */
  function IsScrolled(scrollY: real): (b: bool)
    ensures b <==> scrollY > 10.0
  {
    scrollY > 10.0
  }

  /** Scrolling further down never takes the bar out of its scrolled style, and the top of the page is never scrolled. */
  lemma IsScrolledMonotone(a: real, b: real)
    ensures a <= b && IsScrolled(a) ==> IsScrolled(b)
    ensures b <= 0.0 ==> !IsScrolled(b)
  {
  }

  /** The menu state of the navigation bar. */
  class Menu {
    var pathname: string
    var isOpen: bool
    var openDropdown: Option<string>
    var openMobileDropdown: Option<string>
    var isScrolled: bool

    /** A dropdown that is open is one of the navigation bar's dropdowns. */
    ghost predicate Valid()
      reads this
    {
      && (openDropdown.Some? ==> openDropdown.value in DropdownNames(NavStructure))
      && (openMobileDropdown.Some? ==> openMobileDropdown.value in DropdownNames(NavStructure))
    }

    /** The state after mounting: everything closed, scroll state read once. */
    constructor(path: string, scrollY: real)
      ensures Valid()
      ensures pathname == path && !isOpen && openDropdown == None && openMobileDropdown == None
      ensures isScrolled == IsScrolled(scrollY)
    {
      pathname := path;
      isOpen := false;
      openDropdown := None;
      openMobileDropdown := None;
      isScrolled := IsScrolled(scrollY);
    }

    /** The route-change effect: runs only when the path changes, and closes every menu. */
    method RouteChange(path: string)
      requires Valid()
      modifies this
      ensures Valid()
      ensures pathname == path && isScrolled == old(isScrolled)
      ensures path != old(pathname) ==> !isOpen && openDropdown == None && openMobileDropdown == None
      ensures path == old(pathname) ==>
        isOpen == old(isOpen) && openDropdown == old(openDropdown) && openMobileDropdown == old(openMobileDropdown)
    {
      if path != pathname {
        pathname := path;
        isOpen := false;
        openDropdown := None;
        openMobileDropdown := None;
      }
    }

    method Scroll(scrollY: real)
      requires Valid()
      modifies this
      ensures Valid()
      ensures isScrolled == IsScrolled(scrollY)
      ensures pathname == old(pathname) && isOpen == old(isOpen)
      ensures openDropdown == old(openDropdown) && openMobileDropdown == old(openMobileDropdown)
    {
      isScrolled := IsScrolled(scrollY);
    }

    /**
     * A mouse press anywhere in the document: closes the desktop dropdown when
     * its container is mounted and the press is outside it.
     */
    method DocumentMouseDown(hasContainer: bool, inside: bool)
      requires Valid()
      modifies this
      ensures Valid()
      ensures openDropdown == if hasContainer && !inside then None else old(openDropdown)
      ensures pathname == old(pathname) && isOpen == old(isOpen)
      ensures openMobileDropdown == old(openMobileDropdown) && isScrolled == old(isScrolled)
    {
      if hasContainer && !inside {
        openDropdown := None;
      }
    }

    /** The window key handler: Escape closes the mobile menu. */
    method KeyDown(key: string)
      requires Valid()
      modifies this
      ensures Valid()
      ensures isOpen == (old(isOpen) && key != "Escape")
      ensures pathname == old(pathname) && isScrolled == old(isScrolled)
      ensures openDropdown == old(openDropdown) && openMobileDropdown == old(openMobileDropdown)
    {
      if key == "Escape" {
        isOpen := false;
      }
    }

    /** The hamburger button. */
    method ToggleMenu()
      requires Valid()
      modifies this
      ensures Valid()
      ensures isOpen == !old(isOpen)
      ensures pathname == old(pathname) && isScrolled == old(isScrolled)
      ensures openDropdown == old(openDropdown) && openMobileDropdown == old(openMobileDropdown)
    {
      isOpen := !isOpen;
    }

    /** The close button of the mobile menu, and a click on a mobile top-level link. */
    method CloseMenu()
      requires Valid()
      modifies this
      ensures Valid()
      ensures !isOpen
      ensures pathname == old(pathname) && isScrolled == old(isScrolled)
      ensures openDropdown == old(openDropdown) && openMobileDropdown == old(openMobileDropdown)
    {
      isOpen := false;
    }

    /** The pointer enters the desktop dropdown `node`. */
    method DropdownEnter(node: string)
      requires Valid() && node in DropdownNames(NavStructure)
      modifies this
      ensures Valid()
      ensures openDropdown == Some(node)
      ensures pathname == old(pathname) && isOpen == old(isOpen)
      ensures openMobileDropdown == old(openMobileDropdown) && isScrolled == old(isScrolled)
    {
      openDropdown := Some(node);
    }

    /** The pointer leaves the desktop dropdown. */
    method DropdownLeave()
      requires Valid()
      modifies this
      ensures Valid()
      ensures openDropdown == None
      ensures pathname == old(pathname) && isOpen == old(isOpen)
      ensures openMobileDropdown == old(openMobileDropdown) && isScrolled == old(isScrolled)
    {
      openDropdown := None;
    }

    /** A click on the button of the desktop dropdown `node`. */
    method DropdownClick(node: string)
      requires Valid() && node in DropdownNames(NavStructure)
      modifies this
      ensures Valid()
      ensures openDropdown == Toggle(old(openDropdown), node)
      ensures pathname == old(pathname) && isOpen == old(isOpen)
      ensures openMobileDropdown == old(openMobileDropdown) && isScrolled == old(isScrolled)
    {
      openDropdown := Toggle(openDropdown, node);
    }

    /** A click on the header of the mobile dropdown `node`. */
    method MobileDropdownClick(node: string)
      requires Valid() && node in DropdownNames(NavStructure)
      modifies this
      ensures Valid()
      ensures openMobileDropdown == Toggle(old(openMobileDropdown), node)
      ensures pathname == old(pathname) && isOpen == old(isOpen)
      ensures openDropdown == old(openDropdown) && isScrolled == old(isScrolled)
    {
      openMobileDropdown := Toggle(openMobileDropdown, node);
    }

    /** A click on an item inside the mobile dropdown. */
    method MobileItemClick()
      requires Valid()
      modifies this
      ensures Valid()
      ensures !isOpen && openMobileDropdown == None
      ensures pathname == old(pathname) && isScrolled == old(isScrolled)
      ensures openDropdown == old(openDropdown)
    {
      isOpen := false;
      openMobileDropdown := None;
    }

    /**
     * With the navigation bar's single dropdown, two clicks on its desktop
     * button restore the prior state.
     */
    method DropdownClickTwice(node: string)
      requires Valid() && node in DropdownNames(NavStructure)
      modifies this
      ensures Valid()
      ensures openDropdown == old(openDropdown)
      ensures pathname == old(pathname) && isOpen == old(isOpen)
      ensures openMobileDropdown == old(openMobileDropdown) && isScrolled == old(isScrolled)
    {
      OneDropdown();
      ToggleTwice(openDropdown, node);
      DropdownClick(node);
      DropdownClick(node);
    }
  }
}
