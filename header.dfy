/** The site header (blocks/header/header.js): the nav's three parts, the accordion
    of the nav sections, the hamburger of the mobile menu and the sticky header.
    The nav sections' list items are kept in document order with, for each, the
    index of the list item whose sub-list holds it (-1 for the top level). Fetching
    the nav fragment, the icon and button decoration and the heading rewrite are not
    part of this model; the scroll offset and the header's height are parameters. */
module Header {
  import opened Common

  /** Parents come before their children in document order. */
  predicate WellFormed(parent: seq<int>) {
    forall k :: 0 <= k < |parent| ==> -1 <= parent[k] < k
  }

  /** List item `k` sits somewhere under container `c`: in the sub-list of the list
      item `c` (the top-level list when `c` is -1), at any depth. */
  function Descends(parent: seq<int>, k: nat, c: int): (r: bool)
    requires WellFormed(parent) && k < |parent|
    ensures r ==> c < k
    decreases k
  {
    parent[k] == c || (parent[k] >= 0 && Descends(parent, parent[k], c))
  }

  /** Every list item is under the nav sections' top-level list. */
  lemma {:induction false} AllUnderTop(parent: seq<int>, k: nat)
    requires WellFormed(parent) && k < |parent|
    ensures Descends(parent, k, -1)
    decreases k
  {
    if parent[k] >= 0 {
      AllUnderTop(parent, parent[k]);
    }
  }

  /** The nesting level of a list item: 1 for the top level. */
  function Depth(parent: seq<int>, k: nat): (d: nat)
    requires WellFormed(parent) && k < |parent|
    ensures d >= 1 && (d == 1 <==> parent[k] == -1)
    decreases k
  {
    if parent[k] < 0 then 1 else 1 + Depth(parent, parent[k])
  }

  /** Some list item among the first `n` sits directly in the sub-list of item `i`. */
  function ChildBefore(parent: seq<int>, i: int, n: nat): bool
    requires n <= |parent|
  {
    n > 0 && (parent[n - 1] == i || ChildBefore(parent, i, n - 1))
  }

  lemma {:induction false} ChildBeforeExists(parent: seq<int>, i: int, n: nat)
    requires n <= |parent|
    ensures ChildBefore(parent, i, n) <==> exists j :: 0 <= j < n && parent[j] == i
  {
    if n > 0 {
      ChildBeforeExists(parent, i, n - 1);
    }
  }

  /** The ancestor-or-self of list item `k` at nesting level `level`. */
  function LevelItem(parent: seq<int>, k: nat, level: nat): (r: nat)
    requires WellFormed(parent) && k < |parent| && 1 <= level <= Depth(parent, k)
    ensures r < |parent| && Depth(parent, r) == level
    ensures r == k || Descends(parent, k, r)
    decreases k
  {
    if Depth(parent, k) == level then k else LevelItem(parent, parent[k], level)
  }

  /** The ancestor one level up is the parent of the ancestor at `level`. */
  lemma {:induction false} LevelItemParent(parent: seq<int>, k: nat, level: nat)
    requires WellFormed(parent) && k < |parent| && 2 <= level <= Depth(parent, k)
    ensures parent[LevelItem(parent, k, level)] == LevelItem(parent, k, level - 1)
    decreases k
  {
    if Depth(parent, k) != level {
      LevelItemParent(parent, parent[k], level);
    }
  }

  /** The list item whose click handler a click inside item `k` reaches first: the
      item itself at the top level, otherwise its second-level ancestor-or-self. */
  function ClickTarget(parent: seq<int>, k: nat): (r: nat)
    requires WellFormed(parent) && k < |parent|
    ensures r < |parent| && Depth(parent, r) <= 2
    ensures r == k || Descends(parent, k, r)
  {
    if Depth(parent, k) == 1 then k else LevelItem(parent, k, 2)
  }

  /** The `aria-expanded` attributes after `toggleSection` on item `k`. */
  function Toggled(parent: seq<int>, aria: seq<Option<bool>>, k: nat): seq<Option<bool>>
    requires WellFormed(parent) && |aria| == |parent| && k < |parent|
  {
    seq(|parent|, j requires 0 <= j < |parent| =>
      if j == k then Some(aria[k] != Some(true))
      else if Descends(parent, j, parent[k]) then Some(false)
      else aria[j])
  }

  /** Toggling an item flips it, collapses every other item under its list, and
      leaves the rest alone; in particular the item's own ancestors are untouched. */
  lemma ToggledEffect(parent: seq<int>, aria: seq<Option<bool>>, k: nat)
    requires WellFormed(parent) && |aria| == |parent| && k < |parent|
    ensures |Toggled(parent, aria, k)| == |parent|
    ensures Toggled(parent, aria, k)[k] == Some(aria[k] != Some(true))
    ensures forall j :: 0 <= j < |parent| && j != k && Descends(parent, j, parent[k]) ==>
              Toggled(parent, aria, k)[j] == Some(false)
    ensures forall j :: 0 <= j < |parent| && Descends(parent, k, j) ==> Toggled(parent, aria, k)[j] == aria[j]
  {
    forall j | 0 <= j < |parent| && Descends(parent, k, j)
      ensures Toggled(parent, aria, k)[j] == aria[j]
    {
      NotUnderOwnList(parent, k, j);
    }
  }

  /** An ancestor of `k` is not under the list that holds `k`. */
  lemma NotUnderOwnList(parent: seq<int>, k: nat, j: nat)
    requires WellFormed(parent) && k < |parent| && j < |parent| && Descends(parent, k, j)
    ensures !Descends(parent, j, parent[k])
  {
    if parent[k] != j {
      assert Descends(parent, parent[k], j);
    }
  }

  /** Enter on an item inside a second-level item `two` of the top-level item `top`:
      `two` toggles, and the event goes on to `top`, whose toggle collapses every
      item of the nav again, `two` included, and flips `top`. So Enter never leaves
      a second-level item open, and with the menu open it closes the menu. */
  lemma EnterCollapsesLevelTwo(parent: seq<int>, aria: seq<Option<bool>>, k: nat, two: nat, top: nat)
    requires WellFormed(parent) && |aria| == |parent| && k < |parent| && Depth(parent, k) >= 2
    requires two == LevelItem(parent, k, 2) && top == LevelItem(parent, k, 1)
    ensures Toggled(parent, Toggled(parent, aria, two), top)[two] == Some(false)
    ensures Toggled(parent, Toggled(parent, aria, two), top)[top] == Some(aria[top] != Some(true))
  {
    LevelItemParent(parent, k, 2);
    AllUnderTop(parent, two);
    ToggledEffect(parent, aria, two);
    ToggledEffect(parent, Toggled(parent, aria, two), top);
  }

  /** A click inside a second-level item toggles that item alone: it flips, and its
      top-level item keeps its state. */
  lemma ClickTogglesLevelTwo(parent: seq<int>, aria: seq<Option<bool>>, k: nat, two: nat, top: nat)
    requires WellFormed(parent) && |aria| == |parent| && k < |parent| && Depth(parent, k) >= 2
    requires two == LevelItem(parent, k, 2) && top == LevelItem(parent, k, 1)
    ensures ClickTarget(parent, k) == two
    ensures Toggled(parent, aria, two)[two] == Some(aria[two] != Some(true))
    ensures Toggled(parent, aria, two)[top] == aria[top]
  {
    LevelItemParent(parent, k, 2);
    ToggledEffect(parent, aria, two);
  }

  /** The class given to the nav's child at `index`: 'nav-brand', 'nav-sections',
      'nav-tools', and past those the template of an undefined name. */
  function SectionClass(index: nat): (r: string)
    ensures index == 0 ==> r == "nav-brand"
    ensures index == 1 ==> r == "nav-sections"
    ensures index == 2 ==> r == "nav-tools"
    ensures index >= 3 ==> r == "nav-undefined"
  {
    var classes := ["brand", "sections", "tools"];
    "nav-" + (if index < |classes| then classes[index] else "undefined")
  }

  /** The list items of the nav sections. */
  class NavSections {
    /** The enclosing list item of each list item, or -1 at the top level. */
    const parent: seq<int>
    /** Whether each list item holds a sub-list. */
    const hasList: seq<bool>
    /** The `aria-expanded` attribute of each list item, absent at first. */
    var ariaExpanded: seq<Option<bool>>
    /** Whether each list item carries the class `nav-drop` and tabindex 0. */
    var navDrop: seq<bool>
    /** Whether each list item carries the class `level-two`. */
    var levelTwo: seq<bool>
    /** Whether the sub-list of each list item carries the class `level-two`. */
    var levelTwoList: seq<bool>
    /** Whether each list item carries the class `level-three`. */
    var levelThree: seq<bool>
    /** Whether each list item carries the class `sub-menu` (and a back button). */
    var subMenu: seq<bool>

    predicate Valid()
      reads this
    {
      && WellFormed(parent)
      && |hasList| == |parent| && |ariaExpanded| == |parent| && |navDrop| == |parent|
      && |levelTwo| == |parent| && |levelTwoList| == |parent| && |levelThree| == |parent|
      && |subMenu| == |parent|
    }

    /** The nav sections as fetched: no attribute and no class set yet. */
    constructor(parent0: seq<int>, hasList0: seq<bool>)
      requires WellFormed(parent0) && |hasList0| == |parent0|
      ensures parent == parent0 && hasList == hasList0 && Valid()
      ensures forall k :: 0 <= k < |parent| ==>
                ariaExpanded[k].None? && !navDrop[k] && !levelTwo[k] && !levelTwoList[k] && !levelThree[k] && !subMenu[k]
    {
      parent := parent0;
      hasList := hasList0;
      ariaExpanded := seq(|parent0|, k => None);
      navDrop := seq(|parent0|, k => false);
      levelTwo := seq(|parent0|, k => false);
      levelTwoList := seq(|parent0|, k => false);
      levelThree := seq(|parent0|, k => false);
      subMenu := seq(|parent0|, k => false);
    }

    /** The class decoration of `decorate`: a top-level item with a sub-list becomes
        a focusable drop-down, second-level items are marked `level-two` (and
        `sub-menu` when they hold a sub-list), and so is the list holding them, and
        third-level items are marked `level-three`. */
    method Decorate()
      requires Valid()
      modifies this`navDrop, this`levelTwo, this`levelTwoList, this`levelThree, this`subMenu
      ensures Valid()
      ensures forall k :: 0 <= k < |parent| ==> (navDrop[k] <==> parent[k] == -1 && hasList[k])
      ensures forall k :: 0 <= k < |parent| ==> (levelTwo[k] <==> Depth(parent, k) == 2)
      ensures forall k :: 0 <= k < |parent| ==>
                (levelTwoList[k] <==> parent[k] == -1 && exists j :: 0 <= j < |parent| && parent[j] == k)
      ensures forall k :: 0 <= k < |parent| ==> (levelThree[k] <==> Depth(parent, k) == 3)
      ensures forall k :: 0 <= k < |parent| ==> (subMenu[k] <==> Depth(parent, k) == 2 && hasList[k])
    {
      var depths := seq(|parent|, j requires 0 <= j < |parent| => Depth(parent, j));
      var drop, two, three, sub := [], [], [], [];
      var k := 0;
      while k < |parent|
        invariant 0 <= k <= |parent|
        invariant |drop| == k && |two| == k && |three| == k && |sub| == k
        invariant forall j :: 0 <= j < k ==> (drop[j] <==> depths[j] == 1 && hasList[j])
        invariant forall j :: 0 <= j < k ==> (two[j] <==> depths[j] == 2)
        invariant forall j :: 0 <= j < k ==> (three[j] <==> depths[j] == 3)
        invariant forall j :: 0 <= j < k ==> (sub[j] <==> depths[j] == 2 && hasList[j])
      {
        drop := drop + [depths[k] == 1 && hasList[k]];
        two := two + [depths[k] == 2];
        three := three + [depths[k] == 3];
        sub := sub + [depths[k] == 2 && hasList[k]];
        k := k + 1;
      }
      var lists := seq(|parent|, j => false);
      k := 0;
      while k < |parent|
        invariant 0 <= k <= |parent| && |lists| == |parent|
        invariant forall i :: 0 <= i < |parent| ==> (lists[i] <==> parent[i] == -1 && ChildBefore(parent, i, k))
      {
        if depths[k] == 2 {
          lists := lists[parent[k] := true];
        }
        k := k + 1;
      }
      forall i | 0 <= i < |parent| {
        ChildBeforeExists(parent, i, |parent|);
      }
      navDrop, levelTwo, levelTwoList, levelThree, subMenu := drop, two, lists, three, sub;
    }

    /** `collapseAllNavSections(container)`: every list item under the container, at
        all levels, gets `aria-expanded` 'false'; a missing container changes
        nothing. */
    method CollapseAll(container: Option<int>)
      requires Valid()
      modifies this`ariaExpanded
      ensures Valid()
      ensures container.None? ==> ariaExpanded == old(ariaExpanded)
      ensures container.Some? ==> forall k :: 0 <= k < |parent| ==>
                ariaExpanded[k] == if Descends(parent, k, container.value) then Some(false) else old(ariaExpanded[k])
    {
      if container.None? {
        return;
      }
      var c := container.value;
      var k := 0;
      while k < |parent|
        invariant 0 <= k <= |parent| && |ariaExpanded| == |parent|
        invariant forall j :: 0 <= j < k ==>
                    ariaExpanded[j] == if Descends(parent, j, c) then Some(false) else old(ariaExpanded[j])
        invariant forall j :: k <= j < |parent| ==> ariaExpanded[j] == old(ariaExpanded[j])
      {
        if Descends(parent, k, c) {
          ariaExpanded := ariaExpanded[k := Some(false)];
        }
        k := k + 1;
      }
    }

    /** `toggleSection(section)` for list item `k`: every item under the list
        holding `k` is collapsed, then `k` is expanded if it was not and collapsed
        if it was. */
    method ToggleSection(k: nat)
      requires Valid() && k < |parent|
      modifies this`ariaExpanded
      ensures Valid()
      ensures ariaExpanded == Toggled(parent, old(ariaExpanded), k)
      ensures ariaExpanded[k] == Some(old(ariaExpanded[k]) != Some(true))
      ensures forall j :: 0 <= j < |parent| && j != k ==>
                ariaExpanded[j] == if Descends(parent, j, parent[k]) then Some(false) else old(ariaExpanded[j])
      ensures forall j :: 0 <= j < |parent| && j != k && parent[j] == parent[k] ==> ariaExpanded[j] == Some(false)
    {
      var expanded := ariaExpanded[k] == Some(true);
      CollapseAll(Some(parent[k]));
      ariaExpanded := ariaExpanded[k := Some(!expanded)];
    }

    /** A click inside list item `k`: the handler of `ClickTarget` toggles it, and a
        second-level handler stops the event there. */
    method Click(k: nat)
      requires Valid() && k < |parent|
      modifies this`ariaExpanded
      ensures Valid()
      ensures ariaExpanded == Toggled(parent, old(ariaExpanded), ClickTarget(parent, k))
    {
      ToggleSection(ClickTarget(parent, k));
    }

    /** An Enter keydown inside list item `k`: at the top level the item toggles;
        deeper, the second-level handler toggles its item and, not stopping the
        event, lets it bubble to the top-level handler, which toggles the top-level
        item as well. */
    method PressEnter(k: nat)
      requires Valid() && k < |parent|
      modifies this`ariaExpanded
      ensures Valid()
      ensures Depth(parent, k) == 1 ==> ariaExpanded == Toggled(parent, old(ariaExpanded), k)
      ensures Depth(parent, k) >= 2 ==>
                ariaExpanded == Toggled(parent, Toggled(parent, old(ariaExpanded), LevelItem(parent, k, 2)),
                                        LevelItem(parent, k, 1))
    {
      if Depth(parent, k) == 1 {
        ToggleSection(k);
      } else {
        ToggleSection(LevelItem(parent, k, 2));
        ToggleSection(LevelItem(parent, k, 1));
      }
    }

    /** Enter as the click handlers treat a click, stopping the event at the
        second-level item: the second-level item flips and its top-level item keeps
        its state. */
    method PressEnterStopped(k: nat)
      requires Valid() && k < |parent|
      modifies this`ariaExpanded
      ensures Valid()
      ensures ariaExpanded == Toggled(parent, old(ariaExpanded), ClickTarget(parent, k))
      ensures Depth(parent, k) >= 2 ==>
                ariaExpanded[LevelItem(parent, k, 2)] == Some(old(ariaExpanded)[LevelItem(parent, k, 2)] != Some(true)) &&
                ariaExpanded[LevelItem(parent, k, 1)] == old(ariaExpanded)[LevelItem(parent, k, 1)]
    {
      if Depth(parent, k) >= 2 {
        ClickTogglesLevelTwo(parent, ariaExpanded, k, LevelItem(parent, k, 2), LevelItem(parent, k, 1));
      }
      Click(k);
    }
  }

  /** The header block: the nav's expanded flag, the page body's vertical overflow and
      the sticky class. */
  class HeaderBlock {
    /** The nav's `aria-expanded`, 'false' once decorated. */
    var navExpanded: bool
    /** `document.body.style.overflowY`. */
    var bodyOverflowY: string
    /** Whether the header carries the class `is-sticky`. */
    var sticky: bool

    constructor()
      ensures !navExpanded && bodyOverflowY == "" && !sticky
    {
      navExpanded := false;
      bodyOverflowY := "";
      sticky := false;
    }

    /** A click on the hamburger: the nav's expanded flag flips, and the body stops
        scrolling exactly while the menu is open. */
    method ClickHamburger()
      modifies this`navExpanded, this`bodyOverflowY
      ensures navExpanded == !old(navExpanded)
      ensures bodyOverflowY == (if navExpanded then "hidden" else "")
    {
      var expanded := navExpanded;
      bodyOverflowY := if expanded then "" else "hidden";
      navExpanded := !expanded;
    }

    /** The scroll listener: the header is sticky iff the page is scrolled past its
        height. */
    method OnScroll(scrollY: int, offsetHeight: int)
      modifies this`sticky
      ensures sticky <==> scrollY > offsetHeight
    {
      if scrollY > offsetHeight {
        sticky := true;
      } else {
        sticky := false;
      }
    }
  }
}
