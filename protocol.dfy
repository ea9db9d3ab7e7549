/** The message protocol between the background scripts and the content script: what
    the page does with each message a background script can send. */
module Protocol {
  import opened Browser
  import opened CalmColors
  import FF = FirefoxBackground
  import CB = ChromeBackground

  /** None of the commands the Firefox background script sends ('apply-file', 'no-theme',
      'query-theme') is one the content script acts on: every message it sends, to apply or
      drop a registry theme or to query the page, leaves the head unchanged, and none of
      them gets a reply. */
  lemma FirefoxCommandsIgnored(resolve: string -> string, head: seq<Node>, items: seq<FF.ThemeItem>, k: nat, scheme: Option<string>)
    requires FF.WellFormedRegistry(items) && k < |items|
    ensures Handled(resolve, head, Message(items[k].action, scheme)) == head
    ensures HandledMutations(resolve, head, Message(items[k].action, scheme)) == []
    ensures Handled(resolve, head, FF.QueryMessage()) == head
    ensures HandledMutations(resolve, head, FF.QueryMessage()) == []
  {
    assert items[k].action == FF.ActionApplyFile || items[k].action == FF.ActionDropTheme;
    assert |FF.ActionApplyFile| != |CommandApply| && |FF.ActionApplyFile| != |CommandRemove|;
    assert |FF.ActionDropTheme| != |CommandApply| && |FF.ActionDropTheme| != |CommandRemove|;
    assert |FF.ActionQueryTheme| != |CommandApply| && |FF.ActionQueryTheme| != |CommandRemove|;
  }

  /** A Chrome apply click on registry entry `k` in a tab with a truthy id sends exactly one
      message, and a page with at most one reserved element that receives it ends up with a
      reserved `<link>` to that entry's stylesheet, tagged with its theme name. */
  lemma ChromeApplyReachesPage(resolve: string -> string, head: seq<Node>, items: seq<CB.ThemeItem>,
                               k: nat, calls: seq<Call>, tabId: int)
    requires CB.WellFormedRegistry(items) && k < 4 && TabIdTruthy(tabId) && ReservedCount(head) <= 1
    ensures var name := items[k].themeName;
      var m := Message(CB.CommandApply, Some(name));
      CB.LoadThemeCalls(calls, tabId, CB.FindThemeNameFromMenuItem(items, items[k].menuItemId))
        == calls + [SendMessage(tabId, m)]
      && var after := Handled(resolve, head, m);
      HasCssLink(after)
      && var n := after[FindCssNode(after).value];
      "href" in n.attrs && CssThemeId in n.attrs
      && n.attrs["href"] == CssSchemeUrl(resolve, Some(name)) && n.attrs[CssThemeId] == name
  {
    CB.ApplyClickOutcomes(items, calls, tabId, items[k].menuItemId);
    ApplyInstallsLink(resolve, head, Some(items[k].themeName));
  }

  /** A Chrome remove click sends 'remove', which takes the page's reserved element away and
      keeps every other element. */
  lemma ChromeRemoveReachesPage(resolve: string -> string, head: seq<Node>)
    requires ReservedCount(head) <= 1
    ensures var after := Handled(resolve, head, Message(CB.CommandRemove, None));
      FindCssNode(after) == None && after == Others(head)
  {
    RemoveClears(resolve, head, None);
  }
}
