/** The navigating variant of the playground UI: a current-section key, a content area
    whose markup is chosen by that key, sidebar navigation items marked `active`, and the
    quick-tool listeners that must be attached again whenever the content is replaced. */
module SectionRouter {
  import opened Wrappers
  import PlaygroundUi
  import Seqs

  /** The ten kinds of content the content area can show; the markup itself is left abstract. */
  datatype Content =
    | WelcomeContent
    | ButtonContent
    | CardContent
    | ModalContent
    | AnimationsContent
    | InteractionsContent
    | LayoutsContent
    | ColorPickerContent
    | TypographyContent
    | SpacingContent

  /** The keys the content switch recognises. */
  const SectionKeys: seq<string> :=
    ["welcome", "button", "card", "modal", "animations",
     "interactions", "layouts", "color-picker", "typography", "spacing"]

  /** The section each content kind is selected by. */
  function KeyOf(c: Content): (key: string)
    ensures key in SectionKeys
  {
    match c
    case WelcomeContent => "welcome"
    case ButtonContent => "button"
    case CardContent => "card"
    case ModalContent => "modal"
    case AnimationsContent => "animations"
    case InteractionsContent => "interactions"
    case LayoutsContent => "layouts"
    case ColorPickerContent => "color-picker"
    case TypographyContent => "typography"
    case SpacingContent => "spacing"
  }

  /** `getContentForSection`: a total switch on the key, falling back to the welcome content. */
  function ContentFor(section: string): (c: Content)
    ensures section in SectionKeys ==> KeyOf(c) == section
    ensures section !in SectionKeys ==> c == WelcomeContent
  {
    match section
    case "welcome" => WelcomeContent
    case "button" => ButtonContent
    case "card" => CardContent
    case "modal" => ModalContent
    case "animations" => AnimationsContent
    case "interactions" => InteractionsContent
    case "layouts" => LayoutsContent
    case "color-picker" => ColorPickerContent
    case "typography" => TypographyContent
    case "spacing" => SpacingContent
    case _ => WelcomeContent
  }

  /** Every content kind is reachable, by its own key and by no other recognised key. */
  lemma ContentForKeyOf(c: Content, section: string)
    ensures ContentFor(KeyOf(c)) == c
    ensures section in SectionKeys ==> (ContentFor(section) == c <==> section == KeyOf(c))
  {
  }

  /** Only the welcome content carries the `#bg-color`, `#text-color` and `#border-radius`
      inputs that the tool listeners attach to. */
  predicate HasToolInputs(c: Content) {
    c == WelcomeContent
  }

  /** A sidebar element carrying a `data-section` attribute, and whether it has the
      `active` class. */
  datatype NavItem = NavItem(section: string, active: bool)

  /** The `data-section` values of the sidebar, in document order: three component
      links, three experiment links, three tool links and the home button. */
  const Sidebar: seq<string> :=
    ["button", "card", "modal", "animations", "interactions", "layouts",
     "color-picker", "typography", "spacing", "welcome"]

  /** The sidebar names every recognised section exactly once. */
  lemma SidebarCoversSections()
    ensures forall s :: s in Sidebar <==> s in SectionKeys
    ensures forall i, j :: 0 <= i < j < |Sidebar| ==> Sidebar[i] != Sidebar[j]
  {
  }

  /** The items' `data-section` values, in document order. */
  function Sections(nav: seq<NavItem>): (ss: seq<string>)
    ensures |ss| == |nav|
    ensures forall i :: 0 <= i < |nav| ==> ss[i] == nav[i].section
  {
    seq(|nav|, i requires 0 <= i < |nav| => nav[i].section)
  }

  /** The index of the first item whose `data-section` is `section`, which is the item
      `querySelector` finds; `|nav|` when there is none. */
  function FirstWithSection(nav: seq<NavItem>, section: string): (i: nat)
    ensures i <= |nav|
    ensures i < |nav| ==> nav[i].section == section
    ensures forall j :: 0 <= j < i ==> nav[j].section != section
  {
    Seqs.IndexOf(Sections(nav), section)
  }

  /** `updateActiveNavItem`: clear `active` everywhere, then set it on the first item of
      the current section. */
  function UpdateActive(nav: seq<NavItem>, current: string): (r: seq<NavItem>)
    ensures |r| == |nav|
    ensures forall i :: 0 <= i < |r| ==> r[i].section == nav[i].section
    ensures forall i :: 0 <= i < |r| ==> (r[i].active <==> i == FirstWithSection(nav, current))
  {
    var first := FirstWithSection(nav, current);
    seq(|nav|, i requires 0 <= i < |nav| => NavItem(nav[i].section, i == first))
  }

  /** At most one item is active afterwards, it belongs to the current section, and an
      unmatched section leaves none active. */
  lemma {:induction false} AtMostOneActive(nav: seq<NavItem>, current: string)
    ensures forall i, j :: 0 <= i < j < |nav| ==> !(UpdateActive(nav, current)[i].active && UpdateActive(nav, current)[j].active)
    ensures forall i :: 0 <= i < |nav| && UpdateActive(nav, current)[i].active ==> nav[i].section == current
    ensures (forall i :: 0 <= i < |nav| ==> nav[i].section != current) ==>
              forall i :: 0 <= i < |nav| ==> !UpdateActive(nav, current)[i].active
  {
    var first := FirstWithSection(nav, current);
    if forall i :: 0 <= i < |nav| ==> nav[i].section != current {
      assert first == |nav|;
    }
  }

  /** When no two items share a section, exactly the items of the current section are
      active: one if the section is listed, none otherwise. */
  lemma UpdateActiveDistinct(nav: seq<NavItem>, current: string)
    requires forall i, j :: 0 <= i < j < |nav| ==> nav[i].section != nav[j].section
    ensures forall i :: 0 <= i < |nav| ==> (UpdateActive(nav, current)[i].active <==> nav[i].section == current)
  {
    var first := FirstWithSection(nav, current);
    forall i | 0 <= i < |nav|
      ensures UpdateActive(nav, current)[i].active <==> nav[i].section == current
    {
      if nav[i].section == current {
        assert first <= i;
        assert first == i;
      }
    }
  }

  /** The page: the current section, the content area (`None` until the page has been
      rendered and `#playground-content` exists), the sidebar items, and whether the
      tool inputs on display have their listeners attached. */
  datatype Page = Page(current: string, content: Option<Content>, nav: seq<NavItem>, toolsWired: bool)

  /** A freshly constructed UI, before `render`. */
  function New(): (p: Page)
    ensures p.current == "welcome"
    ensures p.content.None? && p.nav == [] && !p.toolsWired
  {
    Page("welcome", None, [], false)
  }

  /** `render`: draw the shell with the welcome content, attach all listeners (the tool
      listeners find the welcome content's inputs) and mark the current section. */
  function Render(p: Page): (r: Page)
    ensures r.current == p.current
    ensures r.content == Some(WelcomeContent) && r.toolsWired
    ensures |r.nav| == |Sidebar|
    ensures forall i :: 0 <= i < |Sidebar| ==> r.nav[i].section == Sidebar[i]
    ensures forall i :: 0 <= i < |Sidebar| ==> (r.nav[i].active <==> Sidebar[i] == p.current)
  {
    var plain := seq(|Sidebar|, i requires 0 <= i < |Sidebar| => NavItem(Sidebar[i], false));
    SidebarCoversSections();
    UpdateActiveDistinct(plain, p.current);
    Page(p.current, Some(ContentFor("welcome")), UpdateActive(plain, p.current), true)
  }

  /** `navigateToSection`: store the key verbatim, replace the content wholesale and
      re-attach the tool listeners when the content area exists, then update the
      active item. */
  function Navigate(p: Page, section: string): (r: Page)
    ensures r.current == section
    ensures p.content.Some? ==> r.content == Some(ContentFor(section)) && r.toolsWired == HasToolInputs(ContentFor(section))
    ensures p.content.None? ==> r.content == None && r.toolsWired == p.toolsWired
    ensures r.nav == UpdateActive(p.nav, section)
  {
    if p.content.Some? then
      var c := ContentFor(section);
      Page(section, Some(c), UpdateActive(p.nav, section), HasToolInputs(c))
    else
      Page(section, None, UpdateActive(p.nav, section), p.toolsWired)
  }

  /** A click on the `i`th navigation item: an empty `data-section` is ignored. */
  function ClickNav(p: Page, i: nat): (r: Page)
    requires i < |p.nav|
    ensures p.nav[i].section == "" ==> r == p
    ensures p.nav[i].section != "" ==> r == Navigate(p, p.nav[i].section)
  {
    var section := p.nav[i].section;
    if section == "" then p else Navigate(p, section)
  }

  /** The tool inputs on display always have their listeners: true of a new page and kept
      by every render, navigation and click. */
  predicate ToolsWiredInv(p: Page) {
    p.toolsWired <==> p.content == Some(WelcomeContent)
  }

  lemma ToolsWiredPreserved(p: Page, section: string)
    requires ToolsWiredInv(p)
    ensures ToolsWiredInv(New())
    ensures ToolsWiredInv(Render(p))
    ensures ToolsWiredInv(Navigate(p, section))
  {
  }

  /** An input event from a quick tool changes the document only while the inputs on
      display have their listeners. */
  function ToolInput(p: Page, d: PlaygroundUi.Doc, input: PlaygroundUi.ToolInput): (r: PlaygroundUi.Doc)
    ensures p.toolsWired ==> r == PlaygroundUi.ApplyToolInput(d, input)
    ensures !p.toolsWired ==> r == d
  {
    if p.toolsWired then PlaygroundUi.ApplyToolInput(d, input) else d
  }

  /** Navigating to a recognised key from a rendered page shows that key's own content,
      marks exactly its sidebar item, and remembers the key. */
  lemma NavigateToKnownSection(p: Page, section: string)
    requires p.content.Some?
    requires |p.nav| == |Sidebar| && forall i :: 0 <= i < |Sidebar| ==> p.nav[i].section == Sidebar[i]
    requires section in SectionKeys
    ensures Navigate(p, section).current == section
    ensures KeyOf(Navigate(p, section).content.value) == section
    ensures exists i :: 0 <= i < |Sidebar| && Navigate(p, section).nav[i].active && Sidebar[i] == section
    ensures forall i :: 0 <= i < |Sidebar| && Navigate(p, section).nav[i].active ==> Sidebar[i] == section
  {
    SidebarCoversSections();
    var r := Navigate(p, section);
    var i :| 0 <= i < |Sidebar| && Sidebar[i] == section;
    var first := FirstWithSection(p.nav, section);
    assert p.nav[i].section == section;
    assert first <= i;
    assert r.nav[first].active;
  }

  /** Navigating to an unrecognised key keeps the key as the current section, shows the
      welcome content, and leaves no sidebar item active. */
  lemma NavigateToUnknownSection(p: Page, section: string)
    requires p.content.Some?
    requires |p.nav| == |Sidebar| && forall i :: 0 <= i < |Sidebar| ==> p.nav[i].section == Sidebar[i]
    requires section !in SectionKeys
    ensures Navigate(p, section).current == section
    ensures Navigate(p, section).content == Some(WelcomeContent)
    ensures forall i :: 0 <= i < |Sidebar| ==> !Navigate(p, section).nav[i].active
  {
    SidebarCoversSections();
    AtMostOneActive(p.nav, section);
  }
}
