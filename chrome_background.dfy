/** The Chrome background script: a registry of theme menu items keyed by
    `prefix + themeName`, a context menu of plain (non-checkbox) entries built from
    it, and click handlers that send `apply` or `remove` to the clicked tab. */
module ChromeBackground {
  import opened Browser
  import opened Lists

  const Prefix := "tonedown-"
  const CommandApply := "apply"
  const CommandRemove := "remove"

  /** One registry entry: menu item id, label, css name, theme type ('file', or '' for
      the remove entry) and the command its click sends. */
  datatype ThemeItem = ThemeItem(menuItemId: string, menuLabel: string, themeName: string, themeType: string, command: string)

  /** `makeThemeItem`: the menu item id is the prefix followed by the theme name. */
  function MakeThemeItem(themeName: string, themeLabel: string, themeType: string, itemCommand: string): (item: ThemeItem)
    ensures item.menuItemId == Prefix + themeName && item.menuItemId[|Prefix|..] == themeName
    ensures item.menuLabel == themeLabel && item.themeName == themeName
    ensures item.themeType == themeType && item.command == itemCommand
  {
    ThemeItem(Prefix + themeName, themeLabel, themeName, themeType, itemCommand)
  }

  /** `makeDefaultThemeItem`: the default theme's css name depends on the browser. */
  function MakeDefaultThemeItem(browserIsChrome: bool): (item: ThemeItem)
    ensures item.themeName == (if browserIsChrome then "chrome-default" else "moz-default")
    ensures item.menuLabel == "Default" && item.themeType == "file" && item.command == CommandApply
  {
    if browserIsChrome then MakeThemeItem("chrome-default", "Default", "file", CommandApply)
    else MakeThemeItem("moz-default", "Default", "file", CommandApply)
  }

  function MakeStandardThemeItems(): (items: seq<ThemeItem>)
    ensures |items| == 3
    ensures forall k :: 0 <= k < |items| ==>
              items[k].command == CommandApply && items[k].themeType == "file"
              && items[k].menuItemId == Prefix + items[k].themeName
  {
    [ MakeThemeItem("light", "Light", "file", CommandApply),
      MakeThemeItem("sepia", "Sepia", "file", CommandApply),
      MakeThemeItem("dark", "Dark", "file", CommandApply) ]
  }

  function MakeRemoveThemeItem(): (item: ThemeItem)
    ensures item.command == CommandRemove && item.themeType == "" && item.menuLabel == "No Theme"
    ensures item.menuItemId == Prefix + item.themeName && item.themeName == "remove"
  {
    MakeThemeItem("remove", "No Theme", "", CommandRemove)
  }

  /** The registry `menuThemes`. */
  function MenuThemes(browserIsChrome: bool): (items: seq<ThemeItem>)
    ensures |items| == 5 && items[0] == MakeDefaultThemeItem(browserIsChrome)
    ensures items[1..4] == MakeStandardThemeItems() && items[4] == MakeRemoveThemeItem()
  {
    [MakeDefaultThemeItem(browserIsChrome)] + MakeStandardThemeItems() + [MakeRemoveThemeItem()]
  }

  ghost predicate ThemeNamesUnique(items: seq<ThemeItem>)
  {
    forall i, j :: 0 <= i < j < |items| ==> items[i].themeName != items[j].themeName
  }

  ghost predicate MenuItemIdsUnique(items: seq<ThemeItem>)
  {
    forall i, j :: 0 <= i < j < |items| ==> items[i].menuItemId != items[j].menuItemId
  }

  /** The shape of the registry that the lemmas below rely on: four apply entries, then
      the remove entry; theme names and menu item ids unique and non-empty. */
  ghost predicate WellFormedRegistry(items: seq<ThemeItem>)
  {
    |items| == 5
    && (forall k :: 0 <= k < 4 ==> items[k].command == CommandApply)
    && items[4].command == CommandRemove
    && (forall k :: 0 <= k < |items| ==> items[k].menuItemId != "" && items[k].themeName != "")
    && ThemeNamesUnique(items) && MenuItemIdsUnique(items)
  }

  /** The registry is default, light, sepia, dark and remove, in this order; each menu item
      id is the prefix followed by the theme name; only the last entry has the command
      'remove'. */
  lemma RegistryContents(browserIsChrome: bool)
    ensures var items := MenuThemes(browserIsChrome);
      |items| == 5
      && items[0].themeName == (if browserIsChrome then "chrome-default" else "moz-default")
      && items[1].themeName == "light" && items[2].themeName == "sepia" && items[3].themeName == "dark"
      && items[4].themeName == "remove" && items[4].menuLabel == "No Theme"
      && (forall k :: 0 <= k < |items| ==> items[k].menuItemId == Prefix + items[k].themeName)
      && (forall k :: 0 <= k < |items| ==> (items[k].command == CommandRemove <==> k == 4))
      && (forall k :: 0 <= k < 4 ==> items[k].command == CommandApply && items[k].themeType == "file")
  {
  }

  /** The registry has the shape the lemmas below rely on. */
  lemma RegistryWellFormed(browserIsChrome: bool)
    ensures WellFormedRegistry(MenuThemes(browserIsChrome))
  {
    RegistryContents(browserIsChrome);
    RegistryNamesUnique(browserIsChrome);
    IdsFollowNames(MenuThemes(browserIsChrome));
  }

  /** The theme names differ already in their first letter. */
  lemma RegistryNamesUnique(browserIsChrome: bool)
    ensures ThemeNamesUnique(MenuThemes(browserIsChrome))
  {
    var items := MenuThemes(browserIsChrome);
    RegistryContents(browserIsChrome);
    forall i, j | 0 <= i < j < |items| ensures items[i].themeName != items[j].themeName {
      assert items[i].themeName[0] != items[j].themeName[0];
    }
  }

  /** Prefixing every theme name keeps unique names unique. */
  lemma IdsFollowNames(items: seq<ThemeItem>)
    requires forall k :: 0 <= k < |items| ==> items[k].menuItemId == Prefix + items[k].themeName
    requires ThemeNamesUnique(items)
    ensures MenuItemIdsUnique(items)
  {
    forall i, j | 0 <= i < j < |items| ensures items[i].menuItemId != items[j].menuItemId {
      assert items[i].menuItemId[|Prefix|..] == items[i].themeName;
      assert items[j].menuItemId[|Prefix|..] == items[j].themeName;
    }
  }

  /** The keys the registry is searched by. */
  function ThemeNameOf(item: ThemeItem): string { item.themeName }
  function MenuItemIdOf(item: ThemeItem): string { item.menuItemId }

  /** `findMenuItemFromThemeName`: the menu item id of the first entry with this theme name,
      or '' when there is none. */
  function FindMenuItemFromThemeName(items: seq<ThemeItem>, themeName: string): (menuItemId: string)
    ensures (forall j :: 0 <= j < |items| ==> items[j].themeName != themeName) ==> menuItemId == ""
    ensures forall i :: 0 <= i < |items| && items[i].themeName == themeName
                        && (forall j :: 0 <= j < i ==> items[j].themeName != themeName)
                        ==> menuItemId == items[i].menuItemId
  {
    match FindIndex(items, ThemeNameOf, themeName)
    case Some(i) => items[i].menuItemId
    case None => ""
  }

  /** `findThemeNameFromMenuItem`: the theme name of the first entry with this menu item id,
      or '' when there is none. */
  function FindThemeNameFromMenuItem(items: seq<ThemeItem>, menuItemId: string): (themeName: string)
    ensures (forall j :: 0 <= j < |items| ==> items[j].menuItemId != menuItemId) ==> themeName == ""
    ensures forall i :: 0 <= i < |items| && items[i].menuItemId == menuItemId
                        && (forall j :: 0 <= j < i ==> items[j].menuItemId != menuItemId)
                        ==> themeName == items[i].themeName
  {
    match FindIndex(items, MenuItemIdOf, menuItemId)
    case Some(i) => items[i].themeName
    case None => ""
  }

  /** With unique names and ids the two lookups are inverse to each other on the registry's
      entries, in both directions. */
  lemma LookupRoundTrip(items: seq<ThemeItem>, k: nat)
    requires ThemeNamesUnique(items) && MenuItemIdsUnique(items) && k < |items|
    ensures FindThemeNameFromMenuItem(items, FindMenuItemFromThemeName(items, items[k].themeName)) == items[k].themeName
    ensures FindMenuItemFromThemeName(items, FindThemeNameFromMenuItem(items, items[k].menuItemId)) == items[k].menuItemId
  {
  }

  function MenuItemIds(items: seq<ThemeItem>): set<string>
  {
    set k | 0 <= k < |items| :: items[k].menuItemId
  }

  /** '' is returned exactly for names and ids the registry does not have, so it never
      stands for a real entry. */
  lemma UnknownIds(items: seq<ThemeItem>, menuItemId: string, themeName: string)
    requires WellFormedRegistry(items)
    ensures FindThemeNameFromMenuItem(items, menuItemId) == "" <==> menuItemId !in MenuItemIds(items)
    ensures FindMenuItemFromThemeName(items, themeName) == "" <==> forall j :: 0 <= j < |items| ==> items[j].themeName != themeName
  {
    if menuItemId in MenuItemIds(items) {
      var k :| 0 <= k < |items| && items[k].menuItemId == menuItemId;
      var i := FindIndex(items, MenuItemIdOf, menuItemId).value;
      assert items[i].themeName != "";
    }
    match FindIndex(items, ThemeNameOf, themeName)
    case Some(i) => assert items[i].menuItemId != "";
    case None =>
  }

  /** The calls `buildContextMenuItems` makes for one entry: an apply entry becomes a plain
      unchecked item; the remove entry becomes a separator followed by a checked item. */
  function ThemeCalls(theme: ThemeItem): seq<Call>
  {
    if theme.command == CommandApply then
      [CreateItem(theme.menuItemId, theme.menuLabel, ItemContexts, Normal, false, ThemeApplyClick)]
    else if theme.command == CommandRemove then
      [CreateSeparator(ItemContexts), CreateItem(theme.menuItemId, theme.menuLabel, ItemContexts, Normal, true, ThemeRemoveClick)]
    else []
  }

  /** The calls `buildContextMenuItems` makes for `items`, in order. */
  function MenuCalls(items: seq<ThemeItem>): seq<Call>
  {
    if items == [] then [] else MenuCalls(items[..|items| - 1]) + ThemeCalls(items[|items| - 1])
  }

  /** The menu calls of five entries are their entries' calls in order. */
  lemma MenuCallsOfFive(items: seq<ThemeItem>)
    requires |items| == 5
    ensures MenuCalls(items) == ThemeCalls(items[0]) + ThemeCalls(items[1]) + ThemeCalls(items[2])
                                + ThemeCalls(items[3]) + ThemeCalls(items[4])
  {
    assert items[..5][..4] == items[..4] && items[..4][..3] == items[..3] && items[..3][..2] == items[..2];
    assert items[..2][..1] == items[..1] && items[..1][..0] == [] && items[..5] == items;
    assert MenuCalls(items[..1]) == ThemeCalls(items[0]);
    assert MenuCalls(items[..2]) == ThemeCalls(items[0]) + ThemeCalls(items[1]);
    assert MenuCalls(items[..3]) == ThemeCalls(items[0]) + ThemeCalls(items[1]) + ThemeCalls(items[2]);
  }

  /** The menu: the four apply entries in registry order, each plain and unchecked, then the
      only separator, then the remove entry checked. */
  lemma MenuLayout(items: seq<ThemeItem>)
    requires WellFormedRegistry(items)
    ensures var calls := MenuCalls(items);
      |calls| == 6
      && (forall k :: 0 <= k < 4 ==>
            calls[k] == CreateItem(items[k].menuItemId, items[k].menuLabel, ItemContexts, Normal, false, ThemeApplyClick))
      && calls[4] == CreateSeparator(ItemContexts)
      && calls[5] == CreateItem(items[4].menuItemId, items[4].menuLabel, ItemContexts, Normal, true, ThemeRemoveClick)
      && (forall k :: 0 <= k < |calls| ==> (calls[k].CreateSeparator? <==> k == 4))
  {
    MenuCallsOfFive(items);
    var calls := MenuCalls(items);
    assert calls == [ThemeCalls(items[0])[0], ThemeCalls(items[1])[0], ThemeCalls(items[2])[0], ThemeCalls(items[3])[0]]
                    + ThemeCalls(items[4]);
  }

  /** The call log after `sendLoadThemeRequest(tabId, themeName)`: an `apply` message when
      both the tab id and the theme name are truthy, nothing otherwise. */
  function LoadThemeCalls(calls: seq<Call>, tabId: int, themeName: string): seq<Call>
  {
    if TabIdTruthy(tabId) && themeName != "" then calls + [SendMessage(tabId, Message(CommandApply, Some(themeName)))]
    else calls
  }

  /** An apply click on an id the registry does not have sends nothing; one on an entry of
      the registry, in a tab with a truthy id, sends `apply` with that entry's theme name. */
  lemma ApplyClickOutcomes(items: seq<ThemeItem>, calls: seq<Call>, tabId: int, menuItemId: string)
    requires WellFormedRegistry(items)
    ensures menuItemId !in MenuItemIds(items) ==>
              LoadThemeCalls(calls, tabId, FindThemeNameFromMenuItem(items, menuItemId)) == calls
    ensures forall k :: 0 <= k < |items| && items[k].menuItemId == menuItemId && TabIdTruthy(tabId) ==>
              LoadThemeCalls(calls, tabId, FindThemeNameFromMenuItem(items, menuItemId))
              == calls + [SendMessage(tabId, Message(CommandApply, Some(items[k].themeName)))]
  {
    UnknownIds(items, menuItemId, "");
    forall k | 0 <= k < |items| && items[k].menuItemId == menuItemId
      ensures FindThemeNameFromMenuItem(items, menuItemId) == items[k].themeName
    {
      LookupRoundTrip(items, k);
    }
  }

  /** The background script's state: the registry and the calls made into the browser so far.
      The registry is a constant field that the constructor sets to `MenuThemes(browserIsChrome)`. */
  class Controller {
    const browserIsChrome: bool
    const menuThemes: seq<ThemeItem>
    var calls: seq<Call>

    /** Script start-up: build the registry and the context menu. */
    constructor (browserIsChrome: bool)
      ensures this.browserIsChrome == browserIsChrome && menuThemes == MenuThemes(browserIsChrome)
      ensures calls == MenuCalls(menuThemes)
    {
      this.browserIsChrome := browserIsChrome;
      menuThemes := MenuThemes(browserIsChrome);
      calls := [];
      new;
      BuildContextMenuItems();
    }

    /** `buildContextMenuItems`: walk the registry, emitting each entry's menu calls. */
    method BuildContextMenuItems()
      modifies this
      ensures calls == old(calls) + MenuCalls(menuThemes)
    {
      for i := 0 to |menuThemes|
        invariant calls == old(calls) + MenuCalls(menuThemes[..i])
      {
        var theme := menuThemes[i];
        assert menuThemes[..i + 1][..i] == menuThemes[..i];
        if theme.command == CommandApply {
          calls := calls + [CreateItem(theme.menuItemId, theme.menuLabel, ItemContexts, Normal, false, ThemeApplyClick)];
        } else if theme.command == CommandRemove {
          calls := calls + [CreateSeparator(ItemContexts)];
          calls := calls + [CreateItem(theme.menuItemId, theme.menuLabel, ItemContexts, Normal, true, ThemeRemoveClick)];
        }
      }
      assert menuThemes[..|menuThemes|] == menuThemes;
    }

    /** `sendLoadThemeRequest`: send `{command: 'apply', scheme: themeName}` when both the tab
        id and the theme name are truthy. */
    method SendLoadThemeRequest(tabId: int, themeName: string)
      modifies this
      ensures calls == LoadThemeCalls(old(calls), tabId, themeName)
    {
      if TabIdTruthy(tabId) && themeName != "" {
        calls := calls + [SendMessage(tabId, Message(CommandApply, Some(themeName)))];
      }
    }

    /** `handleThemeApplyClick`: look the clicked entry's theme name up and request it. */
    method HandleThemeApplyClick(menuItemId: string, tabId: int)
      modifies this
      ensures calls == LoadThemeCalls(old(calls), tabId, FindThemeNameFromMenuItem(menuThemes, menuItemId))
    {
      SendLoadThemeRequest(tabId, FindThemeNameFromMenuItem(menuThemes, menuItemId));
    }

    /** `handleThemeRemoveClick`: always send `{command: 'remove'}` to the clicked tab. */
    method HandleThemeRemoveClick(tabId: int)
      modifies this
      ensures calls == old(calls) + [SendMessage(tabId, Message(CommandRemove, None))]
    {
      calls := calls + [SendMessage(tabId, Message(CommandRemove, None))];
    }
  }
}
