/** The Firefox background script: a fixed registry of theme menu items, the
    checkbox menu built from it, and the handlers that send theme requests to a
    tab and reconcile the checked item with what the tab reports. */
module FirefoxBackground {
  import opened Browser
  import opened Lists

  const Prefix := "tonedown"
  const ActionApplyFile := "apply-file"
  const ActionDropTheme := "no-theme"
  const ActionQueryTheme := "query-theme"

  /** The default theme's css name, which depends on the browser. */
  function BrowserDefaultTheme(browserIsChrome: bool): (name: string)
    ensures name == (if browserIsChrome then "chrome" else "moz") + "-default"
    ensures name != "light" && name != "sepia" && name != "dark" && name != ActionDropTheme
  {
    if browserIsChrome then "chrome-default" else "moz-default"
  }

  /** One registry entry: its menu item id and label, the css name or action id
      it stands for, the action its click requests, and whether a separator
      precedes it in the menu. */
  datatype ThemeItem = ThemeItem(menuItemId: string, menuItemLabel: string, itemId: string, action: string, sep: bool)

  /** `makeThemeItem`: the menu item id is the prefix, the action and the item id, joined by '-'. */
  function MakeThemeItem(itemId: string, itemLabel: string, itemAction: string, sep: bool): (item: ThemeItem)
    ensures item.menuItemId == Prefix + "-" + itemAction + "-" + itemId
    ensures item.menuItemLabel == itemLabel && item.itemId == itemId && item.action == itemAction && item.sep == sep
  {
    ThemeItem(Prefix + "-" + itemAction + "-" + itemId, itemLabel, itemId, itemAction, sep)
  }

  /** `makeThemeItems`: the registry `themeActions`. */
  function MakeThemeItems(browserIsChrome: bool): (items: seq<ThemeItem>)
    ensures |items| == 5 && items[0].itemId == BrowserDefaultTheme(browserIsChrome)
    ensures forall k :: 0 <= k < |items| ==> items[k].action == (if k == 4 then ActionDropTheme else ActionApplyFile)
    ensures forall k :: 0 <= k < |items| ==> (items[k].sep <==> k == 4)
  {
    [ MakeThemeItem(BrowserDefaultTheme(browserIsChrome), "Default", ActionApplyFile, false),
      MakeThemeItem("light", "Light", ActionApplyFile, false),
      MakeThemeItem("sepia", "Sepia", ActionApplyFile, false),
      MakeThemeItem("dark", "Dark", ActionApplyFile, false),
      MakeThemeItem(ActionDropTheme, "No Theme", ActionDropTheme, true) ]
  }

  ghost predicate ItemIdsUnique(items: seq<ThemeItem>)
  {
    forall i, j :: 0 <= i < j < |items| ==> items[i].itemId != items[j].itemId
  }

  ghost predicate MenuItemIdsUnique(items: seq<ThemeItem>)
  {
    forall i, j :: 0 <= i < j < |items| ==> items[i].menuItemId != items[j].menuItemId
  }

  /** The shape of the registry that the lemmas below rely on: four items that apply a
      css file, then the drop-theme item with a separator before it; item ids and menu
      item ids unique, and no id empty. */
  ghost predicate WellFormedRegistry(items: seq<ThemeItem>)
  {
    |items| == 5
    && (forall k :: 0 <= k < 4 ==> items[k].action == ActionApplyFile && !items[k].sep)
    && items[4].action == ActionDropTheme && items[4].itemId == ActionDropTheme && items[4].sep
    && (forall k :: 0 <= k < |items| ==> items[k].menuItemId != "" && items[k].itemId != "")
    && ItemIdsUnique(items) && MenuItemIdsUnique(items)
  }

  /** The registry lists Default, Light, Sepia and Dark, which apply a css file, and then
      "No Theme", the only item that drops the theme; each menu item id is the prefix, the
      action and the item id joined by '-'. */
  lemma RegistryContents(browserIsChrome: bool)
    ensures var items := MakeThemeItems(browserIsChrome);
      |items| == 5
      && items[0].itemId == BrowserDefaultTheme(browserIsChrome) && items[1].itemId == "light"
      && items[2].itemId == "sepia" && items[3].itemId == "dark" && items[4].itemId == ActionDropTheme
      && items[0].menuItemLabel == "Default" && items[1].menuItemLabel == "Light" && items[2].menuItemLabel == "Sepia"
      && items[3].menuItemLabel == "Dark" && items[4].menuItemLabel == "No Theme"
      && (forall k :: 0 <= k < |items| ==> items[k].menuItemId == Prefix + "-" + items[k].action + "-" + items[k].itemId)
      && (forall k :: 0 <= k < |items| ==> (items[k].action == ActionDropTheme <==> k == 4))
      && (forall k :: 0 <= k < 4 ==> items[k].action == ActionApplyFile)
      && (forall k :: 0 <= k < |items| ==> (items[k].sep <==> k == 4))
  {
  }

  /** The registry has the shape the lemmas below rely on. */
  lemma RegistryWellFormed(browserIsChrome: bool)
    ensures WellFormedRegistry(MakeThemeItems(browserIsChrome))
  {
    RegistryMenuItemIdsUnique(browserIsChrome);
  }

  lemma RegistryMenuItemIdsUnique(browserIsChrome: bool)
    ensures MenuItemIdsUnique(MakeThemeItems(browserIsChrome))
  {
    var items := MakeThemeItems(browserIsChrome);
    var p := Prefix + "-" + ActionApplyFile + "-";
    assert |p| == 20;
    forall i, j | 0 <= i < j < 4 ensures items[i].menuItemId != items[j].menuItemId {
      assert items[i].menuItemId[..20] == p && items[j].menuItemId[..20] == p;
      assert items[i].menuItemId[20..] == items[i].itemId;
      assert items[j].menuItemId[20..] == items[j].itemId;
    }
    forall i | 0 <= i < 4 ensures items[i].menuItemId != items[4].menuItemId {
      assert items[i].menuItemId[9] == 'a' && items[4].menuItemId[9] == 'n';
    }
  }

  /** The keys the registry is searched by. */
  function ItemIdOf(item: ThemeItem): string { item.itemId }
  function MenuItemIdOf(item: ThemeItem): string { item.menuItemId }

  /** `findMenuItemFromActionId`: the menu item id of the first item with this item id,
      or '' when there is none. */
  function FindMenuItemFromActionId(items: seq<ThemeItem>, itemId: string): (menuItemId: string)
    ensures (forall j :: 0 <= j < |items| ==> items[j].itemId != itemId) ==> menuItemId == ""
    ensures forall i :: 0 <= i < |items| && items[i].itemId == itemId
                        && (forall j :: 0 <= j < i ==> items[j].itemId != itemId)
                        ==> menuItemId == items[i].menuItemId
  {
    match FindIndex(items, ItemIdOf, itemId)
    case Some(i) => items[i].menuItemId
    case None => ""
  }

  /** `findActionFromMenuItem`: the first item with this menu item id, or none. */
  function FindActionFromMenuItem(items: seq<ThemeItem>, menuItemId: string): (action: Option<ThemeItem>)
    ensures action.None? <==> forall j :: 0 <= j < |items| ==> items[j].menuItemId != menuItemId
    ensures forall i :: 0 <= i < |items| && items[i].menuItemId == menuItemId
                        && (forall j :: 0 <= j < i ==> items[j].menuItemId != menuItemId)
                        ==> action == Some(items[i])
  {
    match FindIndex(items, MenuItemIdOf, menuItemId)
    case Some(i) => Some(items[i])
    case None => None
  }

  /** With unique ids, looking an item up by its item id and the result up by menu item id
      gives the item back, and the other way round. */
  lemma LookupRoundTrip(items: seq<ThemeItem>, k: nat)
    requires ItemIdsUnique(items) && MenuItemIdsUnique(items) && k < |items|
    ensures FindActionFromMenuItem(items, FindMenuItemFromActionId(items, items[k].itemId)) == Some(items[k])
    ensures FindMenuItemFromActionId(items, FindActionFromMenuItem(items, items[k].menuItemId).value.itemId) == items[k].menuItemId
  {
  }

  /** The set of menu item ids of `items`. */
  function MenuItemIds(items: seq<ThemeItem>): set<string>
  {
    set k | 0 <= k < |items| :: items[k].menuItemId
  }

  /** An id that is not a menu item id of the registry yields no action, and an item id
      that is not in the registry yields ''. */
  lemma UnknownIds(items: seq<ThemeItem>, menuItemId: string, itemId: string)
    requires WellFormedRegistry(items)
    ensures FindActionFromMenuItem(items, menuItemId).None? <==> menuItemId !in MenuItemIds(items)
    ensures FindMenuItemFromActionId(items, itemId) == "" <==> forall j :: 0 <= j < |items| ==> items[j].itemId != itemId
  {
    if menuItemId in MenuItemIds(items) {
      var k :| 0 <= k < |items| && items[k].menuItemId == menuItemId;
      assert FindActionFromMenuItem(items, menuItemId).Some?;
    }
    match FindIndex(items, ItemIdOf, itemId)
    case Some(i) => assert items[i].menuItemId != "";
    case None =>
  }

  lemma MenuItemIdsPrefix(items: seq<ThemeItem>, i: nat)
    requires i < |items|
    ensures MenuItemIds(items[..i + 1]) == MenuItemIds(items[..i]) + {items[i].menuItemId}
  {
    var a, b := items[..i + 1], items[..i];
    forall m | m in MenuItemIds(a) ensures m in MenuItemIds(b) + {items[i].menuItemId} {
      var k :| 0 <= k < |a| && a[k].menuItemId == m;
      if k < i { assert b[k] == a[k]; }
    }
    forall m | m in MenuItemIds(b) + {items[i].menuItemId} ensures m in MenuItemIds(a) {
      if m == items[i].menuItemId {
        assert a[i].menuItemId == m;
      } else {
        var k :| 0 <= k < |b| && b[k].menuItemId == m;
        assert a[k] == b[k];
      }
    }
  }

  // ---------------------------------------------------------------------------
  // Checked state of the menu

  /** `id` is checked and every other entry of the menu is unchecked. */
  ghost predicate OnlyChecked(menu: map<string, bool>, id: string)
  {
    id in menu && menu[id] && forall m :: m in menu && m != id ==> !menu[m]
  }

  ghost predicate OneChecked(menu: map<string, bool>)
  {
    exists id :: OnlyChecked(menu, id)
  }

  /** The calls `buildContextMenuItems` makes for one item: a separator first when the
      item asks for one, then a checkbox entry checked exactly for the drop-theme item. */
  function ItemCalls(item: ThemeItem): seq<Call>
  {
    (if item.sep then [CreateSeparator(ItemContexts)] else [])
    + [CreateItem(item.menuItemId, item.menuItemLabel, ItemContexts, Checkbox, item.action == ActionDropTheme, ThemeClick)]
  }

  /** The calls `buildContextMenuItems` makes for `items`, in order. */
  function MenuCalls(items: seq<ThemeItem>): seq<Call>
  {
    if items == [] then [] else MenuCalls(items[..|items| - 1]) + ItemCalls(items[|items| - 1])
  }

  /** The checked state of `menu` once entries for `items` have been created. */
  function WithInitialChecks(menu: map<string, bool>, items: seq<ThemeItem>): map<string, bool>
  {
    if items == [] then menu
    else WithInitialChecks(menu, items[..|items| - 1])[items[|items| - 1].menuItemId := items[|items| - 1].action == ActionDropTheme]
  }

  /** The initial menu: Default, Light, Sepia and Dark unchecked, then a separator, then
      "No Theme" checked. */
  lemma InitialMenuCalls(items: seq<ThemeItem>)
    requires WellFormedRegistry(items)
    ensures var calls := MenuCalls(items);
      |calls| == 6
      && (forall k :: 0 <= k < 4 ==>
            calls[k] == CreateItem(items[k].menuItemId, items[k].menuItemLabel, ItemContexts, Checkbox, false, ThemeClick))
      && calls[4] == CreateSeparator(ItemContexts)
      && calls[5] == CreateItem(items[4].menuItemId, items[4].menuItemLabel, ItemContexts, Checkbox, true, ThemeClick)
  {
    assert items[..5][..4] == items[..4] && items[..4][..3] == items[..3] && items[..3][..2] == items[..2];
    assert items[..2][..1] == items[..1] && items[..1][..0] == [] && items[..5] == items;
    assert MenuCalls(items[..1]) == ItemCalls(items[0]);
    assert MenuCalls(items[..2]) == ItemCalls(items[0]) + ItemCalls(items[1]);
    assert MenuCalls(items[..3]) == ItemCalls(items[0]) + ItemCalls(items[1]) + ItemCalls(items[2]);
    assert MenuCalls(items[..4]) == ItemCalls(items[0]) + ItemCalls(items[1]) + ItemCalls(items[2]) + ItemCalls(items[3]);
  }

  /** In the initial menu "No Theme" is the only checked entry, and there is an entry for
      every registry item. */
  lemma InitialMenuChecks(items: seq<ThemeItem>)
    requires WellFormedRegistry(items)
    ensures WithInitialChecks(map[], items).Keys == MenuItemIds(items)
    ensures OnlyChecked(WithInitialChecks(map[], items), items[4].menuItemId)
  {
    assert items[..5][..4] == items[..4] && items[..4][..3] == items[..3] && items[..3][..2] == items[..2];
    assert items[..2][..1] == items[..1] && items[..1][..0] == [] && items[..5] == items;
    var ids := seq(5, k requires 0 <= k < 5 => items[k].menuItemId);
    var m := WithInitialChecks(map[], items);
    assert WithInitialChecks(map[], items[..1]) == map[][ids[0] := false];
    assert WithInitialChecks(map[], items[..2]) == map[][ids[0] := false][ids[1] := false];
    assert WithInitialChecks(map[], items[..3]) == map[][ids[0] := false][ids[1] := false][ids[2] := false];
    assert WithInitialChecks(map[], items[..4]) == map[][ids[0] := false][ids[1] := false][ids[2] := false][ids[3] := false];
    assert m == map[][ids[0] := false][ids[1] := false][ids[2] := false][ids[3] := false][ids[4] := true];
    assert m.Keys == MenuItemIds(items) by {
      forall x | x in MenuItemIds(items) ensures x in m {
        var k :| 0 <= k < 5 && items[k].menuItemId == x;
      }
    }
  }

  // ---------------------------------------------------------------------------
  // Reconciliation

  /** What `updateMenuItemStates` asks to check for a query reply: the reported theme,
      or the drop-theme item for an empty theme or a failed delivery. */
  function ReplyTheme(reply: Outcome): (name: string)
    ensures name != ""
    ensures reply.Delivered? && reply.theme != "" ==> name == reply.theme
    ensures reply.Failed? || reply.theme == "" ==> name == ActionDropTheme
  {
    match reply
    case Delivered(theme) => if theme != "" then theme else ActionDropTheme
    case Failed => ActionDropTheme
  }

  /** The `contextMenus.update` calls of the deferred batch, in registry order. */
  function UpdateCalls(items: seq<ThemeItem>, menuItemId: string): seq<Call>
  {
    if items == [] then []
    else UpdateCalls(items[..|items| - 1], menuItemId)
         + [UpdateChecked(items[|items| - 1].menuItemId, items[|items| - 1].menuItemId == menuItemId)]
  }

  /** The menu after the deferred batch of `checkActiveMenuItem` has updated the entries
      of `items` in order, each to be checked exactly when it is `menuItemId`. */
  function BatchUpdate(menu: map<string, bool>, items: seq<ThemeItem>, menuItemId: string): map<string, bool>
  {
    if items == [] then menu
    else BatchUpdate(menu, items[..|items| - 1], menuItemId)[items[|items| - 1].menuItemId := items[|items| - 1].menuItemId == menuItemId]
  }

  /** After the batch, the entries of `items` are checked exactly when they are `menuItemId`,
      and every other entry keeps its flag. */
  lemma {:induction false} BatchUpdateFlags(menu: map<string, bool>, items: seq<ThemeItem>, menuItemId: string)
    ensures BatchUpdate(menu, items, menuItemId).Keys == menu.Keys + MenuItemIds(items)
    ensures forall m :: m in BatchUpdate(menu, items, menuItemId) ==>
              BatchUpdate(menu, items, menuItemId)[m] == if m in MenuItemIds(items) then m == menuItemId else menu[m]
    decreases |items|
  {
    if items != [] {
      var n := |items| - 1;
      BatchUpdateFlags(menu, items[..n], menuItemId);
      MenuItemIdsPrefix(items, n);
      assert items[..n + 1] == items;
    }
  }

  /** The menu after `checkActiveMenuItem(itemName)`'s batch: nothing changes unless the
      name resolves to a menu item id. */
  function Reconciled(items: seq<ThemeItem>, menu: map<string, bool>, itemName: string): map<string, bool>
  {
    var id := FindMenuItemFromActionId(items, itemName);
    if id == "" then menu else BatchUpdate(menu, items, id)
  }

  /** The calls made by `checkActiveMenuItem(itemName)`'s batch. */
  function ReconcileCalls(items: seq<ThemeItem>, itemName: string): seq<Call>
  {
    var id := FindMenuItemFromActionId(items, itemName);
    if id == "" then [] else UpdateCalls(items, id)
  }

  /** Reconciliation with a name that resolves leaves exactly the resolved entry checked;
      with a name that does not resolve it changes nothing and makes no call. */
  lemma ReconcileResolves(items: seq<ThemeItem>, menu: map<string, bool>, itemName: string)
    requires menu.Keys == MenuItemIds(items)
    ensures var id := FindMenuItemFromActionId(items, itemName);
      (id != "" ==> OnlyChecked(Reconciled(items, menu, itemName), id) && Reconciled(items, menu, itemName).Keys == menu.Keys)
      && (id == "" ==> Reconciled(items, menu, itemName) == menu && ReconcileCalls(items, itemName) == [])
  {
    var id := FindMenuItemFromActionId(items, itemName);
    if id != "" {
      var i := FindIndex(items, ItemIdOf, itemName).value;
      assert items[i].menuItemId in MenuItemIds(items);
      BatchUpdateFlags(menu, items, id);
    }
  }

  /** On the registry: a known item id leaves exactly its item checked, and an unknown one
      changes nothing. */
  lemma RegistryReconcile(items: seq<ThemeItem>, menu: map<string, bool>, itemName: string)
    requires WellFormedRegistry(items) && menu.Keys == MenuItemIds(items)
    ensures (forall k :: 0 <= k < |items| && items[k].itemId == itemName ==>
          OnlyChecked(Reconciled(items, menu, itemName), items[k].menuItemId))
      && ((forall k :: 0 <= k < |items| ==> items[k].itemId != itemName) ==>
          Reconciled(items, menu, itemName) == menu && ReconcileCalls(items, itemName) == [])
  {
    ReconcileResolves(items, menu, itemName);
  }

  /** The menu after `checkActiveMenuItem`, which is a no-op in Chrome. */
  function CheckMenu(items: seq<ThemeItem>, browserIsChrome: bool, menu: map<string, bool>, itemName: string): map<string, bool>
  {
    if browserIsChrome then menu else Reconciled(items, menu, itemName)
  }

  /** The call log after `checkActiveMenuItem`. */
  function CheckCalls(items: seq<ThemeItem>, browserIsChrome: bool, calls: seq<Call>, itemName: string): seq<Call>
  {
    if browserIsChrome then calls else calls + ReconcileCalls(items, itemName)
  }

  /** The query `updateMenuItemStates` sends. */
  function QueryMessage(): Message
  {
    Message(ActionQueryTheme, None)
  }

  /** The call log after `updateMenuItemStates(tabId)` when the query settles as `reply`:
      the query, then the reconciliation to the reply's theme. */
  function QueryCalls(items: seq<ThemeItem>, browserIsChrome: bool, calls: seq<Call>, tabId: int, reply: Outcome): seq<Call>
  {
    if browserIsChrome then calls
    else calls + [SendMessage(tabId, QueryMessage())] + ReconcileCalls(items, ReplyTheme(reply))
  }

  /** Whether `sendThemeRequest` sends anything: both the tab id and the action are truthy. */
  predicate RequestSent(tabId: int, actionName: string)
  {
    TabIdTruthy(tabId) && actionName != ""
  }

  /** The call log after `sendThemeRequest`: the request, then on delivery the follow-up
      query and its reconciliation, or on failure the reconciliation to the drop-theme item. */
  function RequestCalls(items: seq<ThemeItem>, browserIsChrome: bool, calls: seq<Call>, tabId: int, actionName: string,
                        itemName: string, delivery: Outcome, reply: Outcome): seq<Call>
  {
    if !RequestSent(tabId, actionName) then calls
    else
      var sent := calls + [SendMessage(tabId, Message(actionName, Some(itemName)))];
      if delivery.Delivered? then QueryCalls(items, browserIsChrome, sent, tabId, reply)
      else CheckCalls(items, browserIsChrome, sent, ActionDropTheme)
  }

  /** The menu after `sendThemeRequest`. */
  function RequestMenu(items: seq<ThemeItem>, browserIsChrome: bool, menu: map<string, bool>, tabId: int, actionName: string,
                       delivery: Outcome, reply: Outcome): map<string, bool>
  {
    if !RequestSent(tabId, actionName) then menu
    else CheckMenu(items, browserIsChrome, menu, if delivery.Delivered? then ReplyTheme(reply) else ActionDropTheme)
  }

  /** In Firefox, after a query settles, the reported registry theme is the only checked entry;
      an empty theme or a failed query leaves only "No Theme" checked. A reported theme the
      registry does not know changes nothing. */
  lemma QueryOutcomes(items: seq<ThemeItem>, menu: map<string, bool>, reply: Outcome)
    requires WellFormedRegistry(items) && menu.Keys == MenuItemIds(items)
    ensures var after := CheckMenu(items, false, menu, ReplyTheme(reply));
      (reply.Failed? || reply.theme == "" ==> OnlyChecked(after, items[4].menuItemId))
      && (forall k :: 0 <= k < |items| && reply.Delivered? && items[k].itemId == reply.theme ==>
            OnlyChecked(after, items[k].menuItemId))
      && (reply.Delivered? && reply.theme != "" && (forall k :: 0 <= k < |items| ==> items[k].itemId != reply.theme) ==>
            after == menu)
  {
    RegistryReconcile(items, menu, ReplyTheme(reply));
  }

  /** In Chrome no checkbox is ever updated: all reconciliation calls are empty. */
  lemma ChromeNeverUpdates(items: seq<ThemeItem>, menu: map<string, bool>, calls: seq<Call>, tabId: int, itemName: string, reply: Outcome)
    ensures CheckMenu(items, true, menu, itemName) == menu && CheckCalls(items, true, calls, itemName) == calls
    ensures QueryCalls(items, true, calls, tabId, reply) == calls
  {
  }

  // ---------------------------------------------------------------------------
  // The controller

  /** The background script's state: the registry, the menu's checked flags and the
      calls made into the browser so far. */
  class Controller {
    const browserIsChrome: bool
    const themeActions: seq<ThemeItem>
    var menu: map<string, bool>
    var calls: seq<Call>

    ghost predicate Valid()
      reads this
    {
      menu.Keys == MenuItemIds(themeActions)
      && OneChecked(menu)
    }

    /** Script start-up: build the registry and the context menu. */
    constructor (browserIsChrome: bool)
      ensures Valid()
      ensures this.browserIsChrome == browserIsChrome && themeActions == MakeThemeItems(browserIsChrome)
      ensures calls == MenuCalls(themeActions)
      ensures OnlyChecked(menu, themeActions[4].menuItemId)
    {
      this.browserIsChrome := browserIsChrome;
      themeActions := MakeThemeItems(browserIsChrome);
      menu := map[];
      calls := [];
      new;
      BuildContextMenuItems();
      RegistryWellFormed(browserIsChrome);
      InitialMenuChecks(themeActions);
    }

    /** `buildContextMenuItems`: one checkbox entry per registry item, a separator before
        each item that asks for one. */
    method BuildContextMenuItems()
      modifies this
      ensures menu == WithInitialChecks(old(menu), themeActions)
      ensures calls == old(calls) + MenuCalls(themeActions)
    {
      for i := 0 to |themeActions|
        invariant menu == WithInitialChecks(old(menu), themeActions[..i])
        invariant calls == old(calls) + MenuCalls(themeActions[..i])
      {
        var item := themeActions[i];
        assert themeActions[..i + 1][..i] == themeActions[..i];
        if item.sep {
          calls := calls + [CreateSeparator(ItemContexts)];
        }
        calls := calls + [CreateItem(item.menuItemId, item.menuItemLabel, ItemContexts, Checkbox,
                                     item.action == ActionDropTheme, ThemeClick)];
        menu := menu[item.menuItemId := item.action == ActionDropTheme];
      }
      assert themeActions[..|themeActions|] == themeActions;
    }

    /** `checkActiveMenuItem(itemName)`, with the 100 ms deferred batch run when it fires:
        if the name resolves to a menu item, every registry entry is updated to be checked
        exactly when it is that item. */
    method CheckActiveMenuItem(itemName: string)
      requires Valid()
      modifies this
      ensures Valid()
      ensures menu == CheckMenu(themeActions, browserIsChrome, old(menu), itemName)
      ensures calls == CheckCalls(themeActions, browserIsChrome, old(calls), itemName)
    {
      if browserIsChrome {
        return;
      }
      var menuItemId := FindMenuItemFromActionId(themeActions, itemName);
      ghost var before := menu;
      if menuItemId != "" {
        UpdateAll(menuItemId);
      }
      ReconcileResolves(themeActions, before, itemName);
    }

    /** The deferred batch of `checkActiveMenuItem`: every entry of the registry, in order,
        is updated to be checked exactly when it is `menuItemId`. */
    method UpdateAll(menuItemId: string)
      modifies this
      ensures menu == BatchUpdate(old(menu), themeActions, menuItemId)
      ensures calls == old(calls) + UpdateCalls(themeActions, menuItemId)
    {
      for i := 0 to |themeActions|
        invariant menu == BatchUpdate(old(menu), themeActions[..i], menuItemId)
        invariant calls == old(calls) + UpdateCalls(themeActions[..i], menuItemId)
      {
        var item := themeActions[i];
        assert themeActions[..i + 1][..i] == themeActions[..i];
        var isChecked := menuItemId == item.menuItemId;
        calls := calls + [UpdateChecked(item.menuItemId, isChecked)];
        menu := menu[item.menuItemId := isChecked];
      }
      assert themeActions[..|themeActions|] == themeActions;
    }

    /** `updateMenuItemStates(tabId)`: ask the tab for its theme, then check the reported
        theme's entry, or "No Theme" for an empty reply or a failure. A no-op in Chrome. */
    method UpdateMenuItemStates(tabId: int, reply: Outcome)
      requires Valid()
      modifies this
      ensures Valid()
      ensures menu == CheckMenu(themeActions, browserIsChrome, old(menu), ReplyTheme(reply))
      ensures calls == QueryCalls(themeActions, browserIsChrome, old(calls), tabId, reply)
    {
      if browserIsChrome {
        return;
      }
      calls := calls + [SendMessage(tabId, QueryMessage())];
      match reply
      case Delivered(theme) =>
        CheckActiveMenuItem(if theme != "" then theme else ActionDropTheme);
      case Failed =>
        CheckActiveMenuItem(ActionDropTheme);
    }

    /** `sendThemeRequest`: send `{command: actionName, scheme: itemName}` when the tab id and
        the action are truthy; on delivery re-run the query, on failure check "No Theme". */
    method SendThemeRequest(tabId: int, actionName: string, itemName: string, delivery: Outcome, reply: Outcome)
      requires Valid()
      modifies this
      ensures Valid()
      ensures menu == RequestMenu(themeActions, browserIsChrome, old(menu), tabId, actionName, delivery, reply)
      ensures calls == RequestCalls(themeActions, browserIsChrome, old(calls), tabId, actionName, itemName, delivery, reply)
    {
      if TabIdTruthy(tabId) && actionName != "" {
        calls := calls + [SendMessage(tabId, Message(actionName, Some(itemName)))];
        if delivery.Delivered? {
          UpdateMenuItemStates(tabId, reply);
        } else {
          CheckActiveMenuItem(ActionDropTheme);
        }
      }
    }

    /** `handleTabUpdated`: reconcile only when the tab finished loading and is the active tab. */
    method HandleTabUpdated(tabId: int, status: Option<string>, active: bool, reply: Outcome)
      requires Valid()
      modifies this
      ensures Valid()
      ensures !(status == Some("complete") && active) ==> menu == old(menu) && calls == old(calls)
      ensures status == Some("complete") && active ==>
                menu == CheckMenu(themeActions, browserIsChrome, old(menu), ReplyTheme(reply))
                && calls == QueryCalls(themeActions, browserIsChrome, old(calls), tabId, reply)
    {
      if status.Some? && status.value == "complete" {
        if active {
          UpdateMenuItemStates(tabId, reply);
        }
      }
    }

    /** `handleTabActivated`: always reconcile with the newly active tab. */
    method HandleTabActivated(tabId: int, reply: Outcome)
      requires Valid()
      modifies this
      ensures Valid()
      ensures menu == CheckMenu(themeActions, browserIsChrome, old(menu), ReplyTheme(reply))
      ensures calls == QueryCalls(themeActions, browserIsChrome, old(calls), tabId, reply)
    {
      UpdateMenuItemStates(tabId, reply);
    }

    /** `handleThemeClick`: resolve the clicked entry and request its action for the tab;
        a click on an unknown entry does nothing. */
    method HandleThemeClick(menuItemId: string, tabId: int, delivery: Outcome, reply: Outcome)
      requires Valid()
      modifies this
      ensures Valid()
      ensures FindActionFromMenuItem(themeActions, menuItemId).None? ==> menu == old(menu) && calls == old(calls)
      ensures FindActionFromMenuItem(themeActions, menuItemId).Some? ==>
                var a := FindActionFromMenuItem(themeActions, menuItemId).value;
                menu == RequestMenu(themeActions, browserIsChrome, old(menu), tabId, a.action, delivery, reply)
                && calls == RequestCalls(themeActions, browserIsChrome, old(calls), tabId, a.action, a.itemId, delivery, reply)
    {
      var action := FindActionFromMenuItem(themeActions, menuItemId);
      if action.Some? {
        SendThemeRequest(tabId, action.value.action, action.value.itemId, delivery, reply);
      }
    }
  }
}
